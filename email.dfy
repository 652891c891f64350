/**
 * The generate and mail-link handlers' text logic: the rendered email
 * `Subject: <subject>\n\n<body>`, the pattern
 * `/^Subject:\s*(.*)\n\n([\s\S]*)$/` that splits it back, and the
 * `mailto:?subject=...&body=...` link built from the two parts.
 */
module EmailText {
  import opened Wrappers
  import opened Text
  import opened Labels
  import opened Templates
  import opened UriEncoding

  /** A subject line and a body. */
  datatype Email = Email(subject: string, body: string)

  /** What the generate handler reads from the form. */
  datatype Selection = Selection(
    category: string,
    party: string,
    stateCode: string,
    politician: string,
    tone: string,
    subjectOverride: string)

  /**
   * The generate handler's subject: for a leader or representative letter
   * the trimmed override when that is not empty, else the template's
   * subject; `Re:` for any other category.
   */
  function ComposedSubject(parties: seq<Party>, sel: Selection): string {
    var subjectOverride := Trim(sel.subjectOverride);
    if sel.category == "leader" then
      if subjectOverride != "" then subjectOverride else LeaderSubject(parties, sel.party)
    else if sel.category == "mp" then
      if subjectOverride != "" then subjectOverride else MpSubject(sel.stateCode, sel.politician)
    else
      "Re:"
  }

  /** The generate handler's body: the category's template, or empty for any other category. */
  function ComposedBody(parties: seq<Party>, sel: Selection): string {
    if sel.category == "leader" then LeaderBody(parties, sel.party, sel.tone)
    else if sel.category == "mp" then MpBody(sel.stateCode, sel.politician, sel.tone)
    else ""
  }

  /** The subject and body the generate handler writes. */
  function Compose(parties: seq<Party>, sel: Selection): Email {
    Email(ComposedSubject(parties, sel), ComposedBody(parties, sel))
  }

  /**
   * A letter's subject is the override, trimmed, exactly when the override
   * holds a non-space character; otherwise it is the template's subject.
   * The override never reaches the subject of any other category.
   */
  lemma ComposeSubject(parties: seq<Party>, sel: Selection)
    ensures var s := ComposedSubject(parties, sel);
            && (sel.category != "leader" && sel.category != "mp" ==> s == "Re:")
            && (sel.category == "leader" || sel.category == "mp" ==>
                  if exists i :: 0 <= i < |sel.subjectOverride| && !IsSpace(sel.subjectOverride[i])
                  then s == Trim(sel.subjectOverride)
                  else if sel.category == "leader" then s == LeaderSubject(parties, sel.party)
                  else s == MpSubject(sel.stateCode, sel.politician))
  {
  }

  /** Any category other than the two letters gives an empty body. */
  lemma ComposeOtherCategory(parties: seq<Party>, sel: Selection)
    requires sel.category != "leader" && sel.category != "mp"
    ensures Compose(parties, sel) == Email("Re:", "")
  {
  }

  /** The text put in the output area: `Subject: <subject>`, a blank line, then the body. */
  function Render(e: Email): string {
    "Subject: " + e.subject + "\n\n" + e.body
  }

  /** The literal the pattern starts with. */
  const SubjectTag: string := "Subject:"

  /** Where the greedy `(.*)` starting at `p` stops: the first line terminator at or after `p`, or the end. */
  function LineEnd(s: string, p: nat): (q: nat)
    requires p <= |s|
    ensures p <= q <= |s|
    ensures forall i :: p <= i < q ==> !IsLineTerminator(s[i])
    ensures q < |s| ==> IsLineTerminator(s[q])
    decreases |s| - p
  {
    if p == |s| || IsLineTerminator(s[p]) then p else LineEnd(s, p + 1)
  }

  /** Where the greedy `\s*` starting at `p` stops: the first non-space at or after `p`, or the end. */
  function SpaceEnd(s: string, p: nat): (q: nat)
    requires p <= |s|
    ensures p <= q <= |s|
    ensures forall i :: p <= i < q ==> IsSpace(s[i])
    ensures q < |s| ==> !IsSpace(s[q])
    decreases |s| - p
  {
    if p == |s| || !IsSpace(s[p]) then p else SpaceEnd(s, p + 1)
  }

  /** LineEnd is the only index that bounds a line-terminator-free run from `p` and ends the text or a line. */
  lemma {:induction false} LineEndAt(s: string, p: nat, m: nat)
    requires p <= m <= |s|
    requires forall i :: p <= i < m ==> !IsLineTerminator(s[i])
    requires m < |s| ==> IsLineTerminator(s[m])
    ensures LineEnd(s, p) == m
    decreases m - p
  {
    if p < m {
      LineEndAt(s, p + 1, m);
    }
  }

  /** SpaceEnd reaches past every run of spaces that starts at `p`. */
  lemma {:induction false} SpaceEndCovers(s: string, p: nat, m: nat)
    requires p <= m <= |s|
    requires forall i :: p <= i < m ==> IsSpace(s[i])
    ensures m <= SpaceEnd(s, p)
    decreases m - p
  {
    if p < m {
      SpaceEndCovers(s, p + 1, m);
    }
  }

  /**
   * The rest of the pattern, `(.*)\n\n([\s\S]*)$`, tried at `p`. Only the
   * longest run of `(.*)` can be followed by a line feed, so it is the only
   * one tried.
   */
  function MatchRestAt(s: string, p: nat): Option<Email>
    requires p <= |s|
  {
    var q := LineEnd(s, p);
    if q + 2 <= |s| && s[q] == '\n' && s[q + 1] == '\n' then Some(Email(s[p..q], s[q + 2..])) else None
  }

  /** The backtracking of `\s*`: its end tried at `p`, then `p - 1`, down to `lo`. */
  function BacktrackSpaces(s: string, lo: nat, p: nat): Option<Email>
    requires lo <= p <= |s|
    decreases p - lo
  {
    match MatchRestAt(s, p)
    case Some(e) => Some(e)
    case None => if p == lo then None else BacktrackSpaces(s, lo, p - 1)
  }

  /** `text.match(/^Subject:\s*(.*)\n\n([\s\S]*)$/)`, as the two captured groups. */
  function ParseRendered(text: string): Option<Email> {
    if |text| >= |SubjectTag| && text[..|SubjectTag|] == SubjectTag
    then BacktrackSpaces(text, |SubjectTag|, SpaceEnd(text, |SubjectTag|))
    else None
  }

  /**
   * The mail-link handler's subject and body: the two groups when the
   * pattern matches, else `Re:` and the whole text.
   */
  function MailtoFields(text: string): Email {
    match ParseRendered(text)
    case Some(e) => e
    case None => Email("Re:", text)
  }

  /** The link the mail-link handler navigates to. */
  function MailtoUri(text: string): string {
    var e := MailtoFields(text);
    "mailto:?subject=" + EncodeUriComponent(e.subject) + "&body=" + EncodeUriComponent(e.body)
  }

  /**
   * The pattern matches `s` with `\s*` taking `k` characters and `(.*)`
   * taking `n`: `s` starts with the tag, then `k` spaces, then `n`
   * characters none of which ends a line, then two line feeds.
   */
  ghost predicate MatchesWith(s: string, k: nat, n: nat) {
    && |SubjectTag| + k + n + 2 <= |s|
    && s[..|SubjectTag|] == SubjectTag
    && (forall i :: |SubjectTag| <= i < |SubjectTag| + k ==> IsSpace(s[i]))
    && (forall i :: |SubjectTag| + k <= i < |SubjectTag| + k + n ==> !IsLineTerminator(s[i]))
    && s[|SubjectTag| + k + n] == '\n' && s[|SubjectTag| + k + n + 1] == '\n'
  }

  /** The two groups captured by the match that MatchesWith(s, k, n) describes. */
  function Groups(s: string, k: nat, n: nat): Email
    requires |SubjectTag| + k + n + 2 <= |s|
  {
    Email(s[|SubjectTag| + k..|SubjectTag| + k + n], s[|SubjectTag| + k + n + 2..])
  }

  /** For a given length of `\s*`, `(.*)` can match in one way only. */
  lemma MatchLengthUnique(s: string, k: nat, n: nat, n': nat)
    requires MatchesWith(s, k, n) && MatchesWith(s, k, n')
    ensures n == n'
  {
  }

  /** The rest of the pattern succeeds after `k` spaces exactly when the whole pattern matches with `\s*` taking `k`. */
  lemma MatchRestAtSpec(s: string, k: nat)
    requires |SubjectTag| + k <= |s| && s[..|SubjectTag|] == SubjectTag
    requires forall i :: |SubjectTag| <= i < |SubjectTag| + k ==> IsSpace(s[i])
    ensures MatchRestAt(s, |SubjectTag| + k).None? ==> forall n: nat :: !MatchesWith(s, k, n)
    ensures MatchRestAt(s, |SubjectTag| + k).Some? ==>
              var n := LineEnd(s, |SubjectTag| + k) - (|SubjectTag| + k);
              MatchesWith(s, k, n) && MatchRestAt(s, |SubjectTag| + k).value == Groups(s, k, n)
  {
    var p := |SubjectTag| + k;
    forall n: nat | MatchesWith(s, k, n) ensures MatchRestAt(s, p).Some? {
      LineEndAt(s, p, p + n);
    }
  }

  /** The longest match whose `\s*` takes at most `k` characters: it takes `j` and `(.*)` takes `n`. */
  ghost predicate IsLongestMatchUpTo(s: string, k: nat, j: nat, n: nat) {
    && j <= k && MatchesWith(s, j, n)
    && forall j': nat, n': nat :: j < j' <= k ==> !MatchesWith(s, j', n')
  }

  /**
   * The backtracking search over the end of `\s*`, from `|SubjectTag| + k`
   * down to the end of the tag, finds no match when no match has `\s*`
   * taking at most `k` characters.
   */
  lemma {:induction false} BacktrackSpacesNone(s: string, k: nat)
    requires |SubjectTag| + k <= |s| && s[..|SubjectTag|] == SubjectTag
    requires forall i :: |SubjectTag| <= i < |SubjectTag| + k ==> IsSpace(s[i])
    ensures BacktrackSpaces(s, |SubjectTag|, |SubjectTag| + k).None? <==>
              forall j: nat, n: nat :: j <= k ==> !MatchesWith(s, j, n)
    decreases k
  {
    MatchRestAtSpec(s, k);
    if MatchRestAt(s, |SubjectTag| + k).None? && k > 0 {
      BacktrackSpacesNone(s, k - 1);
    }
  }

  /** When the search finds a match, it is the one whose `\s*` is longest. */
  lemma {:induction false} BacktrackSpacesSome(s: string, k: nat)
    requires |SubjectTag| + k <= |s| && s[..|SubjectTag|] == SubjectTag
    requires forall i :: |SubjectTag| <= i < |SubjectTag| + k ==> IsSpace(s[i])
    requires BacktrackSpaces(s, |SubjectTag|, |SubjectTag| + k).Some?
    ensures exists j: nat, n: nat :: IsLongestMatchUpTo(s, k, j, n)
              && BacktrackSpaces(s, |SubjectTag|, |SubjectTag| + k).value == Groups(s, j, n)
    decreases k
  {
    var p := |SubjectTag| + k;
    MatchRestAtSpec(s, k);
    if MatchRestAt(s, p).Some? {
      var n := LineEnd(s, p) - p;
      assert BacktrackSpaces(s, |SubjectTag|, p) == MatchRestAt(s, p);
      assert IsLongestMatchUpTo(s, k, k, n);
    } else {
      assert 0 < k && BacktrackSpaces(s, |SubjectTag|, p) == BacktrackSpaces(s, |SubjectTag|, p - 1);
      BacktrackSpacesSome(s, k - 1);
      var j: nat, n: nat :| IsLongestMatchUpTo(s, k - 1, j, n)
                            && BacktrackSpaces(s, |SubjectTag|, p - 1).value == Groups(s, j, n);
      LongestMatchExtends(s, k, j, n);
    }
  }

  /** When `\s*` cannot take exactly `k` characters, the longest match up to `k - 1` is also the longest up to `k`. */
  lemma LongestMatchExtends(s: string, k: nat, j: nat, n: nat)
    requires 0 < k && IsLongestMatchUpTo(s, k - 1, j, n)
    requires forall n': nat :: !MatchesWith(s, k, n')
    ensures IsLongestMatchUpTo(s, k, j, n)
  {
    forall j': nat, n': nat | j < j' <= k ensures !MatchesWith(s, j', n') {
      if j' < k {
        assert !MatchesWith(s, j', n');
      }
    }
  }

  /**
   * ParseRendered is the regular expression's match: None exactly when no
   * way of matching exists, and otherwise the groups of the match that
   * backtracking reaches first, the one whose `\s*` is longest.
   */
  lemma ParseRenderedIsFirstMatch(s: string)
    ensures ParseRendered(s).None? <==> forall k: nat, n: nat :: !MatchesWith(s, k, n)
    ensures ParseRendered(s).Some? ==>
              exists k: nat, n: nat :: MatchesWith(s, k, n) && ParseRendered(s).value == Groups(s, k, n)
                && forall k': nat, n': nat :: MatchesWith(s, k', n') ==> k' <= k
  {
    var t := |SubjectTag|;
    if |s| >= t && s[..t] == SubjectTag {
      var p := SpaceEnd(s, t);
      forall k: nat, n: nat | MatchesWith(s, k, n) ensures k <= p - t {
        SpaceEndCovers(s, t, t + k);
      }
      BacktrackSpacesNone(s, p - t);
      if ParseRendered(s).Some? {
        BacktrackSpacesSome(s, p - t);
        var k: nat, n: nat :| IsLongestMatchUpTo(s, p - t, k, n) && ParseRendered(s).value == Groups(s, k, n);
        assert MatchesWith(s, k, n);
      }
    }
  }

  /**
   * A rendered email parses back into its subject and body when the subject
   * is one non-empty line that does not start with a space: the pattern's
   * `\s*` then stops right after `Subject: ` and `(.*)` takes exactly the
   * subject.
   */
  lemma RenderParseRoundTrip(e: Email)
    requires e.subject != [] && !IsSpace(e.subject[0]) && IsSingleLine(e.subject)
    ensures ParseRendered(Render(e)) == Some(e)
  {
    var s := Render(e);
    var t := |SubjectTag|;
    var q := t + 1 + |e.subject|;
    assert s == SubjectTag + " " + e.subject + "\n\n" + e.body;
    assert s[..t] == SubjectTag;
    assert SpaceEnd(s, t) == t + 1 by {
      assert IsSpace(s[t]) && s[t + 1] == e.subject[0];
    }
    LineEndAt(s, t + 1, q) by {
      forall i | t + 1 <= i < q ensures !IsLineTerminator(s[i]) {
        assert s[i] == e.subject[i - t - 1];
      }
    }
    assert s[t + 1..q] == e.subject && s[q + 2..] == e.body;
  }

  /**
   * With the empty subject the round trip can fail: the body's own leading
   * line feed is taken as part of the blank line.
   */
  lemma EmptySubjectLosesBodyLineFeed()
    ensures ParseRendered(Render(Email("", "\nX"))) == Some(Email("", "X"))
  {
    var s := Render(Email("", "\nX"));
    assert s == "Subject: \n\n\nX";
    assert SpaceEnd(s, 12) == 12;
    assert SpaceEnd(s, 11) == 12;
    assert SpaceEnd(s, 10) == 12;
    assert SpaceEnd(s, 9) == 12;
    assert SpaceEnd(s, |SubjectTag|) == 12;
    assert LineEnd(s, 13) == 13;
    assert LineEnd(s, 12) == 13;
    assert MatchRestAt(s, 12).None? && MatchRestAt(s, 11).None?;
    assert LineEnd(s, 11) == 11 && LineEnd(s, 10) == 10;
    assert s[10..10] == "" && s[12..] == "X";
    assert MatchRestAt(s, 10) == Some(Email("", "X"));
    assert BacktrackSpaces(s, |SubjectTag|, 10) == Some(Email("", "X"));
    assert BacktrackSpaces(s, |SubjectTag|, 11) == Some(Email("", "X"));
    assert BacktrackSpaces(s, |SubjectTag|, 12) == Some(Email("", "X"));
  }

  /**
   * The subject of every letter is one non-empty line that starts with a
   * non-space, provided the override, the party code,
   * every party label, the region code and the representative's name are
   * each on one line.
   */
  lemma ComposedSubjectIsLine(parties: seq<Party>, sel: Selection)
    requires IsSingleLine(sel.subjectOverride) && IsSingleLine(sel.party) && IsSingleLine(sel.stateCode)
    requires IsSingleLine(sel.politician)
    requires forall i :: 0 <= i < |parties| ==> IsSingleLine(parties[i].displayLabel)
    ensures var s := ComposedSubject(parties, sel);
            s != [] && !IsSpace(s[0]) && IsSingleLine(s)
  {
    var s := ComposedSubject(parties, sel);
    if sel.category != "leader" && sel.category != "mp" {
      assert s == "Re:";
      assert IsSingleLine(s);
    } else if Trim(sel.subjectOverride) != "" {
      assert s == Trim(sel.subjectOverride);
    } else if sel.category == "leader" {
      ReadablePartyIsLabelOrCode(parties, sel.party);
      LeaderSubjectIsSingleLine(parties, sel.party);
    } else {
      MpSubjectIsSingleLine(sel.stateCode, sel.politician);
    }
  }

  /**
   * What the generate handler writes, the mail-link handler splits back
   * into the same subject and body.
   */
  lemma GeneratedTextParsesBack(parties: seq<Party>, sel: Selection)
    requires IsSingleLine(sel.subjectOverride) && IsSingleLine(sel.party) && IsSingleLine(sel.stateCode)
    requires IsSingleLine(sel.politician)
    requires forall i :: 0 <= i < |parties| ==> IsSingleLine(parties[i].displayLabel)
    ensures MailtoFields(Render(Compose(parties, sel))) == Compose(parties, sel)
  {
    ComposedSubjectIsLine(parties, sel);
    RenderParseRoundTrip(Compose(parties, sel));
  }

  /**
   * The mail-link handler's fields are those of the pattern's first match,
   * and `Re:` with the whole text when nothing matches.
   */
  lemma MailtoFieldsSpec(text: string)
    ensures (forall k: nat, n: nat :: !MatchesWith(text, k, n)) ==> MailtoFields(text) == Email("Re:", text)
    ensures (exists k: nat, n: nat :: MatchesWith(text, k, n)) ==>
              exists k: nat, n: nat :: MatchesWith(text, k, n) && MailtoFields(text) == Groups(text, k, n)
                && forall k': nat, n': nat :: MatchesWith(text, k', n') ==> k' <= k
  {
    ParseRenderedIsFirstMatch(text);
  }

  /** Text that does not start with `Subject:` goes out whole as the body, under `Re:`. */
  lemma MailtoWithoutTag(text: string)
    requires |text| < |SubjectTag| || text[..|SubjectTag|] != SubjectTag
    ensures MailtoFields(text) == Email("Re:", text)
  {
    ParseRenderedIsFirstMatch(text);
  }

  /** An encoded component holds neither `&` nor `=`. */
  lemma EncodedHasNoDelimiter(x: string)
    ensures '&' !in EncodeUriComponent(x) && '=' !in EncodeUriComponent(x)
  {
    var a := EncodeUriComponent(x);
    forall i | 0 <= i < |a| ensures a[i] != '&' && a[i] != '=' {
      assert IsUriUnreserved(a[i]) || a[i] == '%';
    }
  }

  /**
   * The link is the fixed prefix, the encoded subject, `&body=` and the
   * encoded body; neither encoded part holds `&` or `=`, so the query
   * splits back into the two parameters, and each decodes to its field.
   */
  lemma MailtoUriParts(text: string)
    ensures var e := MailtoFields(text);
            exists a, b :: MailtoUri(text) == "mailto:?subject=" + a + "&body=" + b
              && '&' !in a && '=' !in a && '&' !in b && '=' !in b
              && DecodeUriComponent(a) == Some(e.subject) && DecodeUriComponent(b) == Some(e.body)
  {
    var e := MailtoFields(text);
    var a, b := EncodeUriComponent(e.subject), EncodeUriComponent(e.body);
    DecodeEncode(e.subject);
    DecodeEncode(e.body);
    EncodedHasNoDelimiter(e.subject);
    EncodedHasNoDelimiter(e.body);
    assert MailtoUri(text) == "mailto:?subject=" + a + "&body=" + b;
  }
}
