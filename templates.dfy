/** The tone lines and the two letter templates, `Templates.leader` and `Templates.mp`. */
module Templates {
  import opened Text
  import opened Labels

  /** The tone-to-sentence object of `chooseToneLine`. */
  const ToneLines: map<string, string> := map[
    "formal" := "I hope this message finds you well.",
    "neutral" := "I hope you're well.",
    "friendly" := "Hope you're doing well!",
    "concise" := ""
  ]

  /**
   * `chooseToneLine`: the three tones with a sentence give it, and every
   * other tone, `concise` included, gives the empty string.
   */
  function ChooseToneLine(tone: string): (r: string)
    ensures tone == "formal" ==> r == "I hope this message finds you well."
    ensures tone == "neutral" ==> r == "I hope you're well."
    ensures tone == "friendly" ==> r == "Hope you're doing well!"
    ensures r != "" <==> tone == "formal" || tone == "neutral" || tone == "friendly"
  {
    if tone == "formal" then "I hope this message finds you well."
    else if tone == "neutral" then "I hope you're well."
    else if tone == "friendly" then "Hope you're doing well!"
    else ""
  }

  /** The tone line is the object lookup `lines[tone] || ""`: a missing key or an empty sentence gives `""`. */
  lemma ChooseToneLineIsLookup(tone: string)
    ensures ChooseToneLine(tone) == if tone in ToneLines && ToneLines[tone] != "" then ToneLines[tone] else ""
  {
  }

  /** `Templates.leader.subject`. */
  function LeaderSubject(parties: seq<Party>, party: string): string {
    "Request for meeting with " + ReadableParty(parties, party) + " Party Leader"
  }

  /** The greeting line of the leader letter. */
  function LeaderGreeting(parties: seq<Party>, party: string): string {
    "Dear " + ReadableParty(parties, party) + " Party Leader,"
  }

  /**
   * What follows the tone line in the leader letter: fixed prose with
   * literal placeholders. The text is written as short phrases: the
   * verifier handles a chain of short literals far more cheaply than one
   * long one.
   */
  function LeaderClosing(): string {
    " I\U{2019}m " + "writing to " + "request a " + "brief " + "meeting to " + "discuss " + "[topic/issue] " + "and its " + "impact on " + "our " + "community.\n"
    + "\n"
    + "I\U{2019}d " + "appreciate " + "the " + "opportunity " + "to share " + "evidence\U{2011}based " + "considerations " + "and " + "potential " + "solutions"
    + " that could " + "inform your " + "party\U{2019}s " + "policy " + "priorities.\n"
    + "\n"
    + "Kind " + "regards,\n"
    + "[Your Name]\n"
    + "[Affiliation, " + "optional]"
  }

  /** The leader letter after its blank line: the tone line, then the fixed paragraphs. */
  function LeaderParagraphs(tone: string): string {
    ChooseToneLine(tone) + LeaderClosing()
  }

  /** `Templates.leader.body`: the greeting, a blank line, then the paragraphs. */
  function LeaderBody(parties: seq<Party>, party: string, tone: string): string {
    LeaderGreeting(parties, party) + "\n\n" + LeaderParagraphs(tone)
  }

  /** `Templates.mp.subject`. */
  function MpSubject(stateCode: string, politician: string): string {
    "Constituent request from " + ReadableState(stateCode) + " for " + politician
  }

  /** The greeting line of the representative letter. */
  function MpGreeting(politician: string): string {
    "Dear " + politician + ","
  }

  /** What follows the region label in the representative letter, in short phrases as above. */
  function MpClosing(): string {
    ", I\U{2019}m " + "writing " + "regarding " + "[topic/issue]. " + "I\U{2019}m seeking " + "your " + "support to " + "address the " + "following " + "points:\n"
    + "\U{2022} Point 1\n"
    + "\U{2022} Point 2\n"
    + "\U{2022} Point 3\n"
    + "\n"
    + "Thank you " + "for your " + "time and " + "service.\n"
    + "\n"
    + "Sincerely,\n"
    + "[Your Name]\n"
    + "[Address / " + "Postcode, " + "optional]"
  }

  /** The representative letter after its blank line: the tone line, the region and the fixed points. */
  function MpParagraphs(stateCode: string, tone: string): string {
    ChooseToneLine(tone) + " As a constituent from " + ReadableState(stateCode) + MpClosing()
  }

  /** `Templates.mp.body`: the greeting, a blank line, then the paragraphs. */
  function MpBody(stateCode: string, politician: string, tone: string): string {
    MpGreeting(politician) + "\n\n" + MpParagraphs(stateCode, tone)
  }

  /** The leader subject starts with a non-space character, and stays on one line when the party label does. */
  lemma LeaderSubjectIsSingleLine(parties: seq<Party>, party: string)
    ensures LeaderSubject(parties, party) != [] && !IsSpace(LeaderSubject(parties, party)[0])
    ensures IsSingleLine(ReadableParty(parties, party)) ==> IsSingleLine(LeaderSubject(parties, party))
  {
    var partyLabel := ReadableParty(parties, party);
    if IsSingleLine(partyLabel) {
      SingleLineConcat("Request for meeting with ", partyLabel);
      SingleLineConcat("Request for meeting with " + partyLabel, " Party Leader");
    }
  }

  /** The representative subject starts with a non-space character, and stays on one line when the code and the name do. */
  lemma MpSubjectIsSingleLine(stateCode: string, politician: string)
    ensures MpSubject(stateCode, politician) != [] && !IsSpace(MpSubject(stateCode, politician)[0])
    ensures IsSingleLine(stateCode) && IsSingleLine(politician) ==> IsSingleLine(MpSubject(stateCode, politician))
  {
    var region := ReadableState(stateCode);
    SubjectPartsOpenWithLetter(region, politician);
    if IsSingleLine(stateCode) && IsSingleLine(politician) {
      SubjectPartsAreSingleLine(region, politician);
    }
  }

  /** The representative subject around any region label and name opens with the letter `C`. */
  lemma SubjectPartsOpenWithLetter(region: string, politician: string)
    ensures var x := "Constituent request from " + region + " for " + politician;
            x != [] && x[0] == 'C'
  {
  }

  /** The representative subject around a single-line region label and name. */
  lemma SubjectPartsAreSingleLine(region: string, politician: string)
    requires IsSingleLine(region) && IsSingleLine(politician)
    ensures IsSingleLine("Constituent request from " + region + " for " + politician)
  {
    assert IsSingleLine("Constituent request from ") && IsSingleLine(" for ");
    SingleLineConcat("Constituent request from ", region);
    SingleLineConcat("Constituent request from " + region, " for ");
    SingleLineConcat("Constituent request from " + region + " for ", politician);
  }

  /** The leader letter opens with its greeting as a line of its own, followed by a blank line. */
  lemma LeaderBodyOpensWithGreeting(parties: seq<Party>, party: string, tone: string)
    ensures LeaderGreeting(parties, party) + "\n\n" <= LeaderBody(parties, party, tone)
  {
    PrefixOfConcat(LeaderGreeting(parties, party) + "\n\n", LeaderParagraphs(tone));
  }

  /** The representative letter opens with its greeting as a line of its own, followed by a blank line. */
  lemma MpBodyOpensWithGreeting(stateCode: string, politician: string, tone: string)
    ensures MpGreeting(politician) + "\n\n" <= MpBody(stateCode, politician, tone)
  {
    PrefixOfConcat(MpGreeting(politician) + "\n\n", MpParagraphs(stateCode, tone));
  }

  /** A string is a prefix of itself followed by anything. */
  lemma PrefixOfConcat(x: string, y: string)
    ensures x <= x + y
  {
  }

  /** A tone the templates do not know gives the concise tone's empty sentence. */
  lemma UnknownToneLine(tone: string)
    requires tone !in ToneLines
    ensures ChooseToneLine(tone) == ChooseToneLine("concise") == ""
  {
    ChooseToneLineIsLookup(tone);
  }

  /** A tone the templates do not know renders the leader letter exactly like the concise tone. */
  lemma UnknownToneIsConciseLeader(parties: seq<Party>, party: string, tone: string)
    requires tone !in ToneLines
    ensures LeaderBody(parties, party, tone) == LeaderBody(parties, party, "concise")
  {
    UnknownToneLine(tone);
    assert LeaderParagraphs(tone) == LeaderParagraphs("concise");
  }

  /** A tone the templates do not know renders the representative letter exactly like the concise tone. */
  lemma UnknownToneIsConciseMp(stateCode: string, politician: string, tone: string)
    requires tone !in ToneLines
    ensures MpBody(stateCode, politician, tone) == MpBody(stateCode, politician, "concise")
  {
    UnknownToneLine(tone);
    assert MpParagraphs(stateCode, tone) == MpParagraphs(stateCode, "concise");
  }
}
