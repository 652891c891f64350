/**
 * The page's state and its event handlers: the current selections, the
 * three choice lists, which areas are shown, and the output text, updated
 * by the populate functions and the handlers wired in `wireEvents`.
 */
module Composer {
  import opened Text
  import opened Labels
  import opened Templates
  import opened EmailText
  import opened UriEncoding
  import opened KeyOrder

  /** One option of a choice list: the value it selects and the text it shows. */
  datatype Choice = Choice(value: string, text: string)

  /** A representative as the region map lists them. */
  datatype Politician = Politician(name: string)

  /** The option a party gets: its id, shown by its label. */
  function PartyChoice(p: Party): Choice {
    Choice(p.id, p.displayLabel)
  }

  /** The option a region code gets: the code, shown by its readable label. */
  function StateChoice(code: string): Choice {
    Choice(code, ReadableState(code))
  }

  /** The option a representative gets: the name, shown as itself. */
  function PoliticianChoice(p: Politician): Choice {
    Choice(p.name, p.name)
  }

  /** The options a `forEach` of `addOption` calls adds: one per item, in order. */
  function Options<T>(items: seq<T>, toChoice: T -> Choice): (r: seq<Choice>)
    ensures |r| == |items|
    decreases |items|
  {
    if items == [] then [] else Options(items[..|items| - 1], toChoice) + [toChoice(items[|items| - 1])]
  }

  /** Each option is the choice of the item at the same position. */
  lemma {:induction false} OptionsAt<T>(items: seq<T>, toChoice: T -> Choice, i: int)
    requires 0 <= i < |items|
    ensures Options(items, toChoice)[i] == toChoice(items[i])
    decreases |items|
  {
    if i < |items| - 1 {
      var init := items[..|items| - 1];
      OptionsAt(init, toChoice, i);
      assert init[i] == items[i];
    }
  }

  /** One more item adds its option at the end. */
  lemma OptionsSnoc<T>(items: seq<T>, toChoice: T -> Choice, i: int)
    requires 0 <= i < |items|
    ensures Options(items[..i + 1], toChoice) == Options(items[..i], toChoice) + [toChoice(items[i])]
  {
    assert items[..i + 1][..i] == items[..i];
  }

  /** `DATA.politiciansByState[stateCode] || []`: a region that is not a key has nobody. */
  function PoliticiansOf(byState: map<string, seq<Politician>>, stateCode: string): (list: seq<Politician>)
    ensures stateCode !in byState ==> list == []
    ensures stateCode in byState ==> list == byState[stateCode]
  {
    if stateCode in byState then byState[stateCode] else []
  }

  /**
   * The composer page. A `true` visibility flag means the element is shown
   * (its `hidden` class is absent).
   */
  class EmailComposer {
    /** The loaded party list and region map; they do not change after loading. */
    const parties: seq<Party>
    const politiciansByState: map<string, seq<Politician>>

    /** The values of the form's controls. */
    var category: string
    var party: string
    var stateCode: string
    var politician: string
    var tone: string
    var subjectOverride: string
    var output: string

    /** The options of the three searchable choice lists. */
    var partyOptions: seq<Choice>
    var stateOptions: seq<Choice>
    var politicianOptions: seq<Choice>

    /** Which parts of the page are shown. */
    var partyDiv: bool
    var stateDiv: bool
    var politicianDiv: bool
    var optionsDiv: bool
    var outputDiv: bool
    var generateBtn: bool

    /** What the generate handler reads from the form. */
    function Selected(): Selection
      reads this`category, this`party, this`stateCode, this`politician, this`tone, this`subjectOverride
    {
      Selection(category, party, stateCode, politician, tone, subjectOverride)
    }

    /** The representative list is empty or holds the current region's names. */
    ghost predicate ListValid()
      reads this`politicianOptions, this`stateCode
    {
      politicianOptions == [] || politicianOptions == Options(PoliticiansOf(politiciansByState, stateCode), PoliticianChoice)
    }

    /**
     * The party area is only shown for a leader letter and the region area
     * only for a representative letter, each with the options area.
     */
    ghost predicate AreasValid()
      reads this`partyDiv, this`stateDiv, this`optionsDiv, this`category
    {
      && (partyDiv ==> optionsDiv && category == "leader")
      && (stateDiv ==> optionsDiv && category == "mp")
    }

    /**
     * The page's invariant. The party and region lists are not part of it:
     * they are fixed once built, as no handler's frame includes them.
     */
    ghost predicate Valid()
      reads this`politicianOptions, this`stateCode, this`partyDiv, this`stateDiv, this`optionsDiv, this`category
    {
      ListValid() && AreasValid()
    }

    /**
     * `init` after the data has loaded: nothing selected, every dependent
     * area hidden, and the party and region lists populated.
     */
    constructor(parties: seq<Party>, politiciansByState: map<string, seq<Politician>>, tone: string)
      ensures Valid()
      ensures partyOptions == Options(parties, PartyChoice)
      ensures stateOptions == Options(SortedKeys(politiciansByState.Keys), StateChoice)
      ensures this.parties == parties && this.politiciansByState == politiciansByState
      ensures category == "" && party == "" && stateCode == "" && politician == ""
      ensures this.tone == tone && subjectOverride == "" && output == ""
      ensures politicianOptions == []
      ensures !partyDiv && !stateDiv && !politicianDiv && !optionsDiv && !outputDiv && !generateBtn
    {
      this.parties := parties;
      this.politiciansByState := politiciansByState;
      category, party, stateCode, politician := "", "", "", "";
      this.tone, subjectOverride, output := tone, "", "";
      partyOptions, stateOptions, politicianOptions := [], [], [];
      partyDiv, stateDiv, politicianDiv, optionsDiv, outputDiv, generateBtn := false, false, false, false, false, false;
      new;
      PopulateParties();
      PopulateStates();
    }

    /** `populateParties`: the party list becomes one option per party, in list order. */
    method PopulateParties()
      modifies this`partyOptions
      ensures partyOptions == Options(parties, PartyChoice)
    {
      partyOptions := [];
      for i := 0 to |parties|
        invariant partyOptions == Options(parties[..i], PartyChoice)
      {
        OptionsSnoc(parties, PartyChoice, i);
        partyOptions := partyOptions + [PartyChoice(parties[i])];
      }
      assert parties[..|parties|] == parties;
    }

    /**
     * `populateStates`: the region list becomes the region codes in
     * ascending order, each once, shown by their readable labels.
     */
    method PopulateStates()
      modifies this`stateOptions
      ensures stateOptions == Options(SortedKeys(politiciansByState.Keys), StateChoice)
    {
      var codes := SortedKeys(politiciansByState.Keys);
      stateOptions := [];
      for i := 0 to |codes|
        invariant stateOptions == Options(codes[..i], StateChoice)
      {
        OptionsSnoc(codes, StateChoice, i);
        stateOptions := stateOptions + [StateChoice(codes[i])];
      }
      assert codes[..|codes|] == codes;
    }

    /**
     * `populatePoliticians`: the representative selection is cleared and the
     * list becomes the names listed for `code`, in list order; none when
     * `code` is not a region.
     */
    method PopulatePoliticians(code: string)
      modifies this`politician, this`politicianOptions
      ensures politician == ""
      ensures politicianOptions == Options(PoliticiansOf(politiciansByState, code), PoliticianChoice)
    {
      politician := "";
      politicianOptions := [];
      var list := PoliticiansOf(politiciansByState, code);
      for i := 0 to |list|
        invariant politician == ""
        invariant politicianOptions == Options(list[..i], PoliticianChoice)
      {
        OptionsSnoc(list, PoliticianChoice, i);
        politicianOptions := politicianOptions + [PoliticianChoice(list[i])];
      }
      assert list[..|list|] == list;
    }

    /**
     * The category handler: hides the party, region and representative
     * areas, the output and the generate button, clears the override and
     * the representative selection and list, then shows the party area (for
     * `leader`) or the region area (for `mp`) together with the options
     * area. Party and region selections are kept, and the options area,
     * once shown, stays shown.
     */
    method ChangeCategory(t: string)
      requires Valid()
      modifies this`category, this`subjectOverride, this`politician, this`politicianOptions
      modifies this`partyDiv, this`stateDiv, this`politicianDiv, this`optionsDiv, this`outputDiv, this`generateBtn
      ensures Valid()
      ensures category == t && subjectOverride == "" && politician == "" && politicianOptions == []
      ensures partyDiv == (t == "leader") && stateDiv == (t == "mp")
      ensures !politicianDiv && !outputDiv && !generateBtn
      ensures optionsDiv == (old(optionsDiv) || t == "leader" || t == "mp")
    {
      category := t;
      politicianDiv, outputDiv, generateBtn := false, false, false;
      subjectOverride := "";
      politician := "";
      politicianOptions := [];
      assert ListValid();
      if t == "leader" {
        partyDiv, stateDiv, optionsDiv := true, false, true;
      } else if t == "mp" {
        partyDiv, stateDiv, optionsDiv := false, true, true;
      } else {
        partyDiv, stateDiv := false, false;
      }
    }

    /** The party handler: the generate button is shown and stale output hidden. */
    method ChangeParty(p: string)
      requires Valid()
      modifies this`party, this`generateBtn, this`outputDiv
      ensures Valid()
      ensures party == p && generateBtn && !outputDiv
    {
      party := p;
      generateBtn := true;
      outputDiv := false;
    }

    /**
     * The region handler: the representative list is rebuilt for the new
     * region with nobody selected, the representative area is shown and
     * stale output hidden. The generate button keeps its visibility.
     */
    method ChangeState(code: string)
      requires Valid()
      modifies this`stateCode, this`politician, this`politicianOptions, this`politicianDiv, this`outputDiv
      ensures Valid()
      ensures stateCode == code && politician == ""
      ensures politicianOptions == Options(PoliticiansOf(politiciansByState, code), PoliticianChoice)
      ensures politicianDiv && !outputDiv
    {
      stateCode := code;
      PopulatePoliticians(code);
      politicianDiv := true;
      outputDiv := false;
    }

    /** The representative handler: the generate button is shown and stale output hidden. */
    method ChangePolitician(name: string)
      requires Valid()
      modifies this`politician, this`generateBtn, this`outputDiv
      ensures Valid()
      ensures politician == name && generateBtn && !outputDiv
    {
      politician := name;
      generateBtn := true;
      outputDiv := false;
    }

    /** Choosing a tone has no handler: only the control's value changes. */
    method SetTone(t: string)
      requires Valid()
      modifies this`tone
      ensures Valid()
      ensures tone == t
    {
      tone := t;
    }

    /** Typing a subject has no handler: only the control's value changes. */
    method SetSubjectOverride(s: string)
      requires Valid()
      modifies this`subjectOverride
      ensures Valid()
      ensures subjectOverride == s
    {
      subjectOverride := s;
    }

    /**
     * The generate handler: the output becomes the rendered letter for the
     * current selections and is shown; no selection changes.
     */
    method Generate()
      modifies this`output, this`outputDiv
      ensures outputDiv
      ensures output == Render(Compose(parties, Selected()))
    {
      var sel := Selected();
      output := Render(Compose(parties, sel));
      outputDiv := true;
      assert Selected() == sel;
    }

    /** The mail-link handler's link, built from the output text. */
    method MailtoHref() returns (uri: string)
      ensures uri == MailtoUri(output)
    {
      uri := MailtoUri(output);
    }
  }

  /** Generating twice in a row writes the same text both times. */
  method GenerateTwice(c: EmailComposer) returns (first: string, second: string)
    modifies c`output, c`outputDiv
    ensures c.outputDiv
    ensures first == second == c.output
  {
    ghost var sel := c.Selected();
    c.Generate();
    first := c.output;
    assert c.Selected() == sel;
    c.Generate();
    assert c.Selected() == sel;
    second := c.output;
  }

  /**
   * Changing region after choosing a representative clears the choice but
   * leaves the generate button shown, so a letter to nobody can be made.
   */
  method RegionChangeKeepsGenerate(c: EmailComposer, code: string, name: string, code': string)
    requires c.Valid()
    modifies c
    ensures c.Valid() && c.generateBtn && !c.outputDiv
    ensures c.category == "mp" && c.stateCode == code' && c.politician == "" && c.subjectOverride == ""
  {
    c.ChangeCategory("mp");
    c.ChangeState(code);
    c.ChangePolitician(name);
    c.ChangeState(code');
  }

  /**
   * Generating and then following the mail link: when the inputs are each on
   * one line, the link carries exactly the generated subject and body.
   */
  method GenerateAndMail(c: EmailComposer) returns (uri: string)
    requires IsSingleLine(c.subjectOverride) && IsSingleLine(c.party)
    requires IsSingleLine(c.stateCode) && IsSingleLine(c.politician)
    requires forall i :: 0 <= i < |c.parties| ==> IsSingleLine(c.parties[i].displayLabel)
    modifies c`output, c`outputDiv
    ensures c.outputDiv
    ensures var e := Compose(c.parties, c.Selected());
            uri == "mailto:?subject=" + EncodeUriComponent(e.subject) + "&body=" + EncodeUriComponent(e.body)
  {
    c.Generate();
    uri := c.MailtoHref();
    GeneratedTextParsesBack(c.parties, c.Selected());
  }
}
