/** Worked examples: the letters and the mail link for concrete selections. */
module Examples {
  import opened Text
  import opened Labels
  import opened Templates
  import opened UriEncoding
  import opened EmailText

  /** The first fallback party reads as its label. */
  lemma PartyALabel()
    ensures ReadableParty(FallbackParties, "partyA") == "Party A"
  {
    ReadablePartyKnown(FallbackParties, 0);
  }

  /** The leader subject for the first fallback party names the party by its label. */
  lemma LeaderSubjectExample()
    ensures LeaderSubject(FallbackParties, "partyA") == "Request for meeting with Party A Party Leader"
  {
    PartyALabel();
  }

  /** The leader greeting for the first fallback party addresses the party's leader. */
  lemma LeaderGreetingExample()
    ensures LeaderGreeting(FallbackParties, "partyA") == "Dear Party A Party Leader,"
  {
    PartyALabel();
  }

  /** In the formal tone the leader paragraphs open with the formal sentence. */
  lemma FormalLeaderParagraphs()
    ensures LeaderParagraphs("formal") == "I hope this message finds you well." + LeaderClosing()
  {
  }

  /** The concise tone has no sentence. */
  lemma ConciseToneIsEmpty()
    ensures ChooseToneLine("concise") == ""
  {
  }

  /** The segments of `new_south-wales` after the first, with the separator before each. */
  const NewSouthWalesRest: seq<(char, string)> := [('_', "south"), ('-', "wales")]

  /** `new_south-wales` is the segments `new`, `south` and `wales`, joined by `_` and `-`. */
  lemma NewSouthWalesCode()
    ensures IsSegment("new") && AreSeparatedSegments(NewSouthWalesRest)
    ensures JoinCode("new", NewSouthWalesRest) == "new_south-wales"
  {
    var init := NewSouthWalesRest[..1];
    assert init == [('_', "south")] && init[..0] == [];
    assert IsSegment("south") && IsSegment("wales");
    assert JoinCode("new", init) == "new_south";
  }

  /** The label of those segments is `New South Wales`. */
  lemma NewSouthWalesJoinedLabel()
    requires IsSegment("new") && AreSeparatedSegments(NewSouthWalesRest)
    ensures JoinLabel("new", NewSouthWalesRest) == "New South Wales"
  {
    var init := NewSouthWalesRest[..1];
    assert init == [('_', "south")] && init[..0] == [];
    assert Capitalised("new") == "New" && Capitalised("south") == "South" && Capitalised("wales") == "Wales";
    assert JoinLabel("new", init) == "New South";
  }

  /** The region label of the representative example. */
  lemma NewSouthWalesLabel()
    ensures ReadableState("new_south-wales") == "New South Wales"
  {
    NewSouthWalesCode();
    NewSouthWalesJoinedLabel();
    ReadableStateOfSegments("new", NewSouthWalesRest);
  }

  /**
   * The representative subject for `new_south-wales` and Jane Smith names
   * the region by its label.
   */
  lemma MpExample()
    ensures MpSubject("new_south-wales", "Jane Smith") == "Constituent request from New South Wales for Jane Smith"
  {
    NewSouthWalesLabel();
    MpSubjectExampleText(ReadableState("new_south-wales"));
  }

  /** The concatenation of MpExample, with the region label already computed. */
  lemma MpSubjectExampleText(region: string)
    requires region == "New South Wales"
    ensures "Constituent request from " + region + " for " + "Jane Smith" ==
            "Constituent request from New South Wales for Jane Smith"
  {
  }

  /**
   * In the concise tone the paragraph after the blank line starts with a
   * single space where the tone sentence would be.
   */
  lemma MpConciseExample()
    ensures MpParagraphs("new_south-wales", "concise") == " As a constituent from New South Wales" + MpClosing()
  {
    NewSouthWalesLabel();
    ConciseToneIsEmpty();
    MpConciseExampleText(ReadableState("new_south-wales"));
  }

  /** The concatenation of MpConciseExample, with the region label already computed. */
  lemma MpConciseExampleText(region: string)
    requires region == "New South Wales"
    ensures "" + " As a constituent from " + region + MpClosing() == " As a constituent from New South Wales" + MpClosing()
  {
  }

  /** The mail-link handler splits the text into its subject line and its two-line body. */
  lemma MailtoExampleFields()
    ensures MailtoFields("Subject: Foo\n\nBar\nBaz") == Email("Foo", "Bar\nBaz")
  {
    var e := Email("Foo", "Bar\nBaz");
    assert Render(e) == "Subject: Foo\n\nBar\nBaz";
    assert IsSingleLine(e.subject) && !IsSpace(e.subject[0]);
    RenderParseRoundTrip(e);
  }

  /** A line feed is encoded as `%0A`. */
  lemma EncodeLineFeed()
    ensures EncodeUriComponent("\n") == "%0A"
  {
    assert Utf8('\n') == [10];
    assert PercentOctet(10) == "%0A";
  }

  /** Letters are kept and the line feed between them is escaped. */
  lemma EncodeBodyExample()
    ensures EncodeUriComponent("Bar\nBaz") == "Bar%0ABaz"
  {
    BodyExampleParts();
    EncodeLinesExample("Bar\nBaz", "Bar", "Baz");
  }

  /** The body of the example is two words on two lines. */
  lemma BodyExampleParts()
    ensures "Bar\nBaz" == "Bar" + "\n" + "Baz" && "Bar%0ABaz" == "Bar" + "%0A" + "Baz"
  {
  }

  /** Two words on two lines: the words are kept and the line feed is escaped. */
  lemma EncodeLinesExample(text: string, a: string, b: string)
    requires text == a + "\n" + b
    requires forall i :: 0 <= i < |a| ==> IsUriUnreserved(a[i])
    requires forall i :: 0 <= i < |b| ==> IsUriUnreserved(b[i])
    ensures EncodeUriComponent(text) == a + "%0A" + b
  {
    EncodeConcat(a + "\n", b);
    EncodeConcat(a, "\n");
    EncodeUnreserved(a);
    EncodeUnreserved(b);
    EncodeLineFeed();
  }

  /** The letters of a subject are kept. */
  lemma EncodeSubjectExample()
    ensures EncodeUriComponent("Foo") == "Foo"
  {
    EncodeUnreserved("Foo");
  }

  /** The link built from known fields. */
  lemma MailtoOfFields(text: string, e: Email)
    requires MailtoFields(text) == e
    ensures MailtoUri(text) == "mailto:?subject=" + EncodeUriComponent(e.subject) + "&body=" + EncodeUriComponent(e.body)
  {
  }

  /** The concatenation of MailtoExample, with the encoded fields already computed. */
  lemma MailtoExampleText(subject: string, body: string)
    requires subject == "Foo" && body == "Bar%0ABaz"
    ensures "mailto:?subject=" + subject + "&body=" + body == "mailto:?subject=Foo&body=Bar%0ABaz"
  {
  }

  /** The mail link for a generated-looking text: the line feed of the body is escaped. */
  lemma MailtoExample()
    ensures MailtoUri("Subject: Foo\n\nBar\nBaz") == "mailto:?subject=Foo&body=Bar%0ABaz"
  {
    var e := Email("Foo", "Bar\nBaz");
    MailtoExampleFields();
    MailtoOfFields("Subject: Foo\n\nBar\nBaz", e);
    EncodeSubjectExample();
    EncodeBodyExample();
    MailtoExampleText(EncodeUriComponent(e.subject), EncodeUriComponent(e.body));
  }
}
