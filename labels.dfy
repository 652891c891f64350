/** The label formatters: `readableParty` and `readableState`. */
module Labels {
  import opened Text

  /** A party as loaded from the parties resource: an id and its display label. */
  datatype Party = Party(id: string, displayLabel: string)

  /** The built-in party list used when the parties resource cannot be fetched. */
  const FallbackParties: seq<Party> := [
    Party("partyA", "Party A"),
    Party("partyB", "Party B"),
    Party("partyC", "Party C")
  ]

  /** No party after index `i` has the id of the party at `i`. */
  ghost predicate IsLastWithId(parties: seq<Party>, i: int)
    requires 0 <= i < |parties|
  {
    forall j :: i < j < |parties| ==> parties[j].id != parties[i].id
  }

  /**
   * The id-to-label object built by `Object.fromEntries`, one entry per
   * party in list order, so a later party with the same id overwrites an
   * earlier one.
   */
  function LabelMap(parties: seq<Party>): (m: map<string, string>)
    decreases |parties|
  {
    if parties == [] then map[]
    else
      var p := parties[|parties| - 1];
      LabelMap(parties[..|parties| - 1])[p.id := p.displayLabel]
  }

  /** The object has a key for exactly the ids of the list. */
  lemma {:induction false} LabelMapKeys(parties: seq<Party>, id: string)
    ensures id in LabelMap(parties) <==> exists i :: 0 <= i < |parties| && parties[i].id == id
    decreases |parties|
  {
    if parties != [] {
      var init := parties[..|parties| - 1];
      LabelMapKeys(init, id);
      if id in LabelMap(init) {
        var i :| 0 <= i < |init| && init[i].id == id;
        assert parties[i] == init[i];
      }
      if exists i :: 0 <= i < |parties| && parties[i].id == id {
        var i :| 0 <= i < |parties| && parties[i].id == id;
        if i < |init| {
          assert init[i] == parties[i];
        }
      }
    }
  }

  /** The value under an id is the label of the last party with that id. */
  lemma {:induction false} LabelMapLast(parties: seq<Party>, i: int)
    requires 0 <= i < |parties| && IsLastWithId(parties, i)
    ensures parties[i].id in LabelMap(parties)
    ensures LabelMap(parties)[parties[i].id] == parties[i].displayLabel
    decreases |parties|
  {
    if i < |parties| - 1 {
      var init := parties[..|parties| - 1];
      assert init[i] == parties[i];
      assert IsLastWithId(init, i) by {
        forall j | i < j < |init| ensures init[j].id != init[i].id {
          assert init[j] == parties[j];
        }
      }
      LabelMapLast(init, i);
      assert parties[|parties| - 1].id != parties[i].id;
    }
  }

  /**
   * `readableParty`: the label stored for `code`, or `code` itself when
   * there is none or the stored label is empty (`map[code] || code`).
   */
  function ReadableParty(parties: seq<Party>, code: string): (r: string)
  {
    var m := LabelMap(parties);
    if code in m && m[code] != "" then m[code] else code
  }

  /** An id no party has reads as itself: a lookup miss is never an error. */
  lemma ReadablePartyUnknown(parties: seq<Party>, code: string)
    requires forall i :: 0 <= i < |parties| ==> parties[i].id != code
    ensures ReadableParty(parties, code) == code
  {
    LabelMapKeys(parties, code);
  }

  /**
   * A known id reads as the label of the last party with that id, or as the
   * id itself when that label is empty.
   */
  lemma ReadablePartyKnown(parties: seq<Party>, i: int)
    requires 0 <= i < |parties| && IsLastWithId(parties, i)
    ensures ReadableParty(parties, parties[i].id) ==
            if parties[i].displayLabel != "" then parties[i].displayLabel else parties[i].id
  {
    LabelMapLast(parties, i);
  }

  /** Every key of the object holds the label of the last party with that id. */
  lemma {:induction false} LabelMapValue(parties: seq<Party>, id: string)
    requires id in LabelMap(parties)
    ensures exists i :: 0 <= i < |parties| && IsLastWithId(parties, i) && parties[i].id == id
                        && LabelMap(parties)[id] == parties[i].displayLabel
    decreases |parties|
  {
    var last := |parties| - 1;
    if parties[last].id == id {
      assert IsLastWithId(parties, last);
    } else {
      var init := parties[..last];
      LabelMapValue(init, id);
      var i :| 0 <= i < |init| && IsLastWithId(init, i) && init[i].id == id
               && LabelMap(init)[id] == init[i].displayLabel;
      assert parties[i] == init[i];
      assert IsLastWithId(parties, i) by {
        forall j | i < j < |parties| ensures parties[j].id != parties[i].id {
          if j < last {
            assert parties[j] == init[j];
          }
        }
      }
    }
  }

  /**
   * A party name reads as the code itself or as the non-empty label of the
   * last party with that id, so it stays on one line when the code and
   * every label do.
   */
  lemma ReadablePartyIsLabelOrCode(parties: seq<Party>, code: string)
    ensures var r := ReadableParty(parties, code);
            r == code || exists i :: 0 <= i < |parties| && IsLastWithId(parties, i) && parties[i].id == code
                                     && r == parties[i].displayLabel && r != ""
    ensures IsSingleLine(code) && (forall i :: 0 <= i < |parties| ==> IsSingleLine(parties[i].displayLabel))
            ==> IsSingleLine(ReadableParty(parties, code))
  {
    if code in LabelMap(parties) {
      LabelMapValue(parties, code);
    }
  }

  /** The separators of region codes, `[-_]` in the pattern of `readableState`. */
  predicate IsSeparator(c: char) {
    c == '-' || c == '_'
  }

  /**
   * The `replace` of `readableState`: one left-to-right pass of the global
   * pattern `(^|[-_])(\w)`. `atStart` holds only at index 0, where `^` may
   * match; a match there upper-cases the word character, a match at a
   * separator turns the separator into a space and upper-cases the word
   * character after it, and scanning resumes after the match.
   */
  function CapitaliseWords(s: string, atStart: bool): (r: string)
    ensures |r| == |s|
    decreases |s|
  {
    if s == [] then []
    else if atStart && IsWordChar(s[0]) then
      [UpperWordChar(s[0])] + CapitaliseWords(s[1..], false)
    else if IsSeparator(s[0]) && |s| >= 2 && IsWordChar(s[1]) then
      [' ', UpperWordChar(s[1])] + CapitaliseWords(s[2..], false)
    else
      [s[0]] + CapitaliseWords(s[1..], false)
  }

  /** The scan's only changes: a word character upper-cased, or a separator turned into a space. */
  predicate ScanChanges(c: char, d: char) {
    d == c || (IsWordChar(c) && d == UpperWordChar(c)) || (IsSeparator(c) && d == ' ')
  }

  /** Every character of the scan's result is its input character or one of the two changes. */
  lemma {:induction false} CapitaliseWordsChanges(s: string, atStart: bool)
    ensures forall i :: 0 <= i < |s| ==> ScanChanges(s[i], CapitaliseWords(s, atStart)[i])
    decreases |s|
  {
    if s == [] {
    } else if atStart && IsWordChar(s[0]) {
      CapitaliseWordsChanges(s[1..], false);
    } else if IsSeparator(s[0]) && |s| >= 2 && IsWordChar(s[1]) {
      CapitaliseWordsChanges(s[2..], false);
    } else {
      CapitaliseWordsChanges(s[1..], false);
    }
  }

  /**
   * Where the pattern `(^|[-_])(\w)` can match at position `i`: the first
   * character when it is a word character and the scan starts there, a
   * separator followed by a word character, or a word character right
   * after a separator.
   */
  predicate MayChangeAt(s: string, atStart: bool, i: int)
    requires 0 <= i < |s|
  {
    || (i == 0 && atStart && IsWordChar(s[0]))
    || (IsSeparator(s[i]) && i + 1 < |s| && IsWordChar(s[i + 1]))
    || (0 < i && IsSeparator(s[i - 1]) && IsWordChar(s[i]))
  }

  /**
   * The scan changes a character only where the pattern can match: the
   * start, a separator before a word character, and a word character after
   * a separator. Everything else is copied as it is.
   */
  lemma {:induction false} CapitaliseWordsChangesOnlyAtMatches(s: string, atStart: bool)
    ensures forall i :: 0 <= i < |s| && CapitaliseWords(s, atStart)[i] != s[i] ==> MayChangeAt(s, atStart, i)
    decreases |s|
  {
    if s != [] {
      var r := CapitaliseWords(s, atStart);
      var d := if atStart && IsWordChar(s[0]) then 1
               else if IsSeparator(s[0]) && |s| >= 2 && IsWordChar(s[1]) then 2
               else 1;
      var t := s[d..];
      assert r == r[..d] + CapitaliseWords(t, false);
      CapitaliseWordsChangesOnlyAtMatches(t, false);
      forall i | 0 <= i < |s| && r[i] != s[i] ensures MayChangeAt(s, atStart, i) {
        if i >= d {
          assert r[i] == CapitaliseWords(t, false)[i - d] && s[i] == t[i - d];
          assert MayChangeAt(t, false, i - d);
          if i + 1 < |s| {
            assert t[i - d + 1] == s[i + 1];
          }
          if 0 < i - d {
            assert t[i - d - 1] == s[i - 1];
          }
        }
      }
    }
  }

  /**
   * `readableState`: capitalise after the start and after each separator,
   * then trim. No other character changes; in particular nothing is
   * lower-cased, and no line terminator is introduced.
   */
  function ReadableState(code: string): (r: string)
    ensures IsSingleLine(code) ==> IsSingleLine(r)
  {
    var pretty := CapitaliseWords(code, true);
    assert IsSingleLine(code) ==> IsSingleLine(pretty) by {
      CapitaliseWordsChanges(code, true);
    }
    Trim(pretty)
  }

  /** A segment of a region code: a non-empty run of ASCII letters and digits. */
  predicate IsSegment(w: string) {
    w != [] && forall i :: 0 <= i < |w| ==> IsWordChar(w[i]) && w[i] != '_'
  }

  /** The separators and segments that follow the first segment of a code. */
  predicate AreSeparatedSegments(rest: seq<(char, string)>) {
    forall k :: 0 <= k < |rest| ==> IsSeparator(rest[k].0) && IsSegment(rest[k].1)
  }

  /** A segment with its first character upper-cased. */
  function Capitalised(w: string): string
    requires IsSegment(w)
  {
    [UpperWordChar(w[0])] + w[1..]
  }

  /** The region code `first sep1 w1 sep2 w2 ...`. */
  function JoinCode(first: string, rest: seq<(char, string)>): (r: string)
    requires IsSegment(first) && AreSeparatedSegments(rest)
    ensures r != [] && !IsSeparator(r[|r| - 1])
    decreases |rest|
  {
    if rest == [] then first
    else
      var last := rest[|rest| - 1];
      JoinCode(first, rest[..|rest| - 1]) + [last.0] + last.1
  }

  /** The label `First W1 W2 ...`: capitalised segments joined by single spaces. */
  function JoinLabel(first: string, rest: seq<(char, string)>): (r: string)
    requires IsSegment(first) && AreSeparatedSegments(rest)
    ensures r != [] && !IsSpace(r[0]) && !IsSpace(r[|r| - 1])
    decreases |rest|
  {
    if rest == [] then Capitalised(first)
    else
      var last := rest[|rest| - 1];
      JoinLabel(first, rest[..|rest| - 1]) + " " + Capitalised(last.1)
  }

  /** The scan copies a text without separators unchanged once past the start. */
  lemma {:induction false} CapitaliseCopiesPlain(a: string)
    requires forall i :: 0 <= i < |a| ==> !IsSeparator(a[i])
    ensures CapitaliseWords(a, false) == a
    decreases |a|
  {
    if a != [] {
      CapitaliseCopiesPlain(a[1..]);
    }
  }

  /**
   * A scan never runs across the end of a prefix that ends in a
   * non-separator: the pattern's matches in `a + b` are those in `a` and
   * those in `b` scanned from a position other than the start.
   */
  lemma {:induction false} CapitaliseAppend(a: string, b: string, atStart: bool)
    requires a != [] && !IsSeparator(a[|a| - 1])
    ensures CapitaliseWords(a + b, atStart) == CapitaliseWords(a, atStart) + CapitaliseWords(b, false)
    decreases |a|
  {
    var s := a + b;
    assert s[0] == a[0];
    if atStart && IsWordChar(a[0]) {
      assert s[1..] == a[1..] + b;
      CapitaliseAppendStep(a, b, atStart, 1);
    } else if IsSeparator(a[0]) && |a| >= 2 && IsWordChar(a[1]) {
      assert s[1] == a[1] && s[2..] == a[2..] + b;
      CapitaliseAppendStep(a, b, atStart, 2);
    } else {
      assert s[1..] == a[1..] + b;
      assert |a| >= 2 ==> s[1] == a[1];
      CapitaliseAppendStep(a, b, atStart, 1);
    }
  }

  /**
   * One step of CapitaliseAppend: when the scan of `a` and of `a + b` both
   * emit `n` characters `h` and continue after index `n`, the rest follows
   * by induction.
   */
  lemma {:induction false} CapitaliseAppendStep(a: string, b: string, atStart: bool, n: nat)
    requires a != [] && !IsSeparator(a[|a| - 1]) && 1 <= n <= |a|
    requires CapitaliseWords(a, atStart) == CapitaliseWords(a, atStart)[..n] + CapitaliseWords(a[n..], false)
    requires CapitaliseWords(a + b, atStart) == CapitaliseWords(a, atStart)[..n] + CapitaliseWords(a[n..] + b, false)
    ensures CapitaliseWords(a + b, atStart) == CapitaliseWords(a, atStart) + CapitaliseWords(b, false)
    decreases |a|, 0
  {
    var h := CapitaliseWords(a, atStart)[..n];
    var tail, rest := CapitaliseWords(a[n..], false), CapitaliseWords(b, false);
    if n < |a| {
      calc {
        CapitaliseWords(a + b, atStart);
        h + CapitaliseWords(a[n..] + b, false);
        { CapitaliseAppend(a[n..], b, false); }
        h + (tail + rest);
        { assert h + (tail + rest) == (h + tail) + rest; }
        CapitaliseWords(a, atStart) + rest;
      }
    } else {
      assert a[n..] == [] && a[n..] + b == b;
      assert tail == [];
    }
  }

  /** The scan turns a code of segments into its label before trimming. */
  lemma {:induction false} CapitaliseJoinedCode(first: string, rest: seq<(char, string)>)
    requires IsSegment(first) && AreSeparatedSegments(rest)
    ensures CapitaliseWords(JoinCode(first, rest), true) == JoinLabel(first, rest)
    decreases |rest|
  {
    if rest == [] {
      CapitaliseCopiesPlain(first[1..]);
      assert first == [first[0]] + first[1..];
    } else {
      var init, last := rest[..|rest| - 1], rest[|rest| - 1];
      assert AreSeparatedSegments(init);
      var tail := [last.0] + last.1;
      var code := JoinCode(first, init);
      calc {
        CapitaliseWords(JoinCode(first, rest), true);
        { assert JoinCode(first, rest) == code + tail; }
        CapitaliseWords(code + tail, true);
        { CapitaliseAppend(code, tail, true); }
        CapitaliseWords(code, true) + CapitaliseWords(tail, false);
        { CapitaliseJoinedCode(first, init); CapitaliseSegmentAfterSeparator(last.0, last.1); }
        JoinLabel(first, init) + " " + Capitalised(last.1);
      }
    }
  }

  /** A separator followed by a segment reads as a space and the capitalised segment. */
  lemma CapitaliseSegmentAfterSeparator(sep: char, w: string)
    requires IsSeparator(sep) && IsSegment(w)
    ensures CapitaliseWords([sep] + w, false) == " " + Capitalised(w)
  {
    var tail := [sep] + w;
    assert tail[1] == w[0] && tail[2..] == w[1..];
    CapitaliseCopiesPlain(w[1..]);
  }

  /**
   * For a region code made of alphanumeric segments joined by single `-` or
   * `_`, `readableState` capitalises each segment and joins them with
   * single spaces.
   */
  lemma ReadableStateOfSegments(first: string, rest: seq<(char, string)>)
    requires IsSegment(first) && AreSeparatedSegments(rest)
    ensures ReadableState(JoinCode(first, rest)) == JoinLabel(first, rest)
  {
    CapitaliseJoinedCode(first, rest);
    TrimUnspaced(JoinLabel(first, rest));
  }

}
