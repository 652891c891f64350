# escrever_email: the advocacy-email composer, modelled in Dafny

The page in `app.js` helps a visitor write a letter to a party leader or to
an elected representative. The visitor picks a category (`leader` or
`mp`), then a party, or a region and a representative from that region.
They may also pick a tone and type a subject of their own. The generate
button then writes `Subject: <subject>`, a blank line and the letter body
into the output area. The mail button splits that text back into subject
and body with the pattern `/^Subject:\s*(.*)\n\n([\s\S]*)$/`. It
percent-encodes both parts with `encodeURIComponent` and opens a
`mailto:?subject=...&body=...` link.

The model has one module per part of the page:

- `Text`: the character classes `\s`, `\w` and `.` of ECMAScript regular
  expressions, `String.prototype.trim`, and `toUpperCase` on word
  characters.
- `Labels`: `readableParty`, the lookup in the object built by
  `Object.fromEntries`, and `readableState`, the global `replace` followed
  by `trim`. It also holds the three-party fallback list.
- `KeyOrder`: the default order of `Array.prototype.sort`, and the sorted
  keys of the region map.
- `Templates`: `chooseToneLine`, and the subjects and bodies of
  `Templates.leader` and `Templates.mp`.
- `UriEncoding`: `encodeURIComponent`, meaning UTF-8 (RFC 3629 section 3)
  and percent-encoding (RFC 3986 section 2.1). It also has its inverse,
  `decodeURIComponent`, which a mail client applies to the fields of the
  link (RFC 6068 section 2).
- `EmailText`: what the generate handler composes and renders; the
  regular expression as a backtracking search with a reference definition
  of "a match"; the mail link.
- `Composer`: the page as a class.
  - Its fields are the form values, the three option lists, the
    visibility flags and the output text.
  - Its methods are the populate functions and the event handlers of
    `wireEvents`.
- `Examples`: concrete letters and links.

Behaviours of `app.js` that the model keeps, though a reader might not
expect them:

- A category change clears only the representative and the typed subject.
  The chosen party and region stay.
- The options area is shown for `leader` and `mp` and is never hidden
  again.
- A region change does not hide the generate button. After a
  representative was chosen, changing region leaves the button shown while
  nobody is selected (`RegionChangeKeepsGenerate`).
- With the concise tone, or any tone the page does not know, the paragraph
  after the greeting begins with a single space.
- The representative list keeps the order of the region map's list. Any
  sorting by name happens in the search widget, which is not modelled.

## Model

| member | source | states |
|---|---|---|
| Text.Trim | app.js:264 | the result is a part of the input with only whitespace before and after it, and itself neither starts nor ends with whitespace; it is empty exactly when the input is all whitespace; trimming adds no line terminator |
| Text.TrimIdempotent | app.js:163 | trimming an already trimmed override changes nothing |
| Text.UpperWordChar | app.js:263 | `toUpperCase` of a `\w` character changes only `a`-`z`, each to its capital 32 code points lower |
| Labels.LabelMap | app.js:257 | the object `Object.fromEntries` builds from the id/label pairs in list order; its keys and values are stated by the three lemmas below |
| Labels.LabelMapKeys | app.js:257 | the id-to-label object has a key for exactly the ids in the party list |
| Labels.LabelMapLast | app.js:257 | an id is stored with the label of the last party carrying that id; later entries overwrite earlier ones |
| Labels.LabelMapValue | app.js:257 | every stored label belongs to the last party with that id |
| Labels.ReadableParty | app.js:256-259 | the label stored for the code if it is non-empty, else the code; stated by the three lemmas below |
| Labels.ReadablePartyUnknown | app.js:256-259 | an id that no party has reads as itself, never as an error |
| Labels.ReadablePartyKnown | app.js:256-259 | a known id reads as the label of the last party with that id, or as the id when that label is empty (`map[code] \|\| code`) |
| Labels.ReadablePartyIsLabelOrCode | app.js:256-259 | the result is the code or a non-empty label of the last matching party, so it is one line when the code and the labels are |
| Labels.CapitaliseWords | app.js:263 | the global replace keeps the length of the code |
| Labels.CapitaliseWordsChanges | app.js:263 | each character of the replace's result is the input character, its upper case (a word character), or a space (a separator); nothing is lower-cased |
| Labels.CapitaliseWordsChangesOnlyAtMatches | app.js:263 | the replace changes a character only where the pattern can match: a word character at the start, a separator before a word character, or a word character right after a separator; every other character is copied |
| Labels.ReadableState | app.js:261-265 | a code on one line gives a label on one line |
| Labels.CapitaliseJoinedCode | app.js:263 | on segments joined by `-` or `_`, the replace capitalises each segment and turns each separator into one space |
| Labels.ReadableStateOfSegments | app.js:261-265 | a code of alphanumeric segments joined by single `-` or `_` reads as its capitalised segments joined by single spaces |
| KeyOrder.Less | app.js:107 | the default comparison of `sort`: character by character, a proper prefix first; its order properties are the three lemmas below |
| KeyOrder.LessIrreflexive | app.js:107 | the default sort order puts no string before itself |
| KeyOrder.LessTransitive | app.js:107 | the default sort order is transitive |
| KeyOrder.LessTotal | app.js:107 | any two different strings are ordered one way or the other |
| KeyOrder.SortedKeys | app.js:106-107 | the sorted keys are strictly ascending and hold each key of the region map exactly once |
| Templates.ChooseToneLine | app.js:246-254 | `formal`, `neutral` and `friendly` give their sentences; the result is non-empty exactly for those three tones |
| Templates.ChooseToneLineIsLookup | app.js:247-253 | the tone line equals the object lookup `lines[tone] \|\| ""` over the four-entry object |
| Templates.UnknownToneLine | app.js:253 | a tone outside the four keys gives the same empty line as `concise` |
| Templates.UnknownToneIsConciseLeader | app.js:211-222 | with an unknown tone the leader letter is exactly the concise letter |
| Templates.UnknownToneIsConciseMp | app.js:227-241 | with an unknown tone the representative letter is exactly the concise letter |
| Templates.LeaderSubject | app.js:210 | `Request for meeting with <party label> Party Leader`; its shape is stated by LeaderSubjectIsSingleLine |
| Templates.LeaderBody | app.js:211-223 | the greeting, a blank line, the tone line and the fixed paragraphs; stated by LeaderBodyOpensWithGreeting, UnknownToneIsConciseLeader and the examples |
| Templates.MpSubject | app.js:226 | `Constituent request from <region label> for <name>`; its shape is stated by MpSubjectIsSingleLine |
| Templates.MpBody | app.js:227-242 | the greeting, a blank line, the tone line, the region and the fixed points; stated by MpBodyOpensWithGreeting, UnknownToneIsConciseMp and the examples |
| Templates.LeaderSubjectIsSingleLine | app.js:210 | the leader subject starts with a non-space and is one line when the party's label is |
| Templates.MpSubjectIsSingleLine | app.js:226 | the representative subject starts with a non-space and is one line when the region code and the name are |
| Templates.LeaderBodyOpensWithGreeting | app.js:211-216 | the leader letter opens with `Dear <party> Party Leader,` and a blank line |
| Templates.MpBodyOpensWithGreeting | app.js:227-232 | the representative letter opens with `Dear <name>,` and a blank line |
| UriEncoding.Utf8 | app.js:199-200 | each character is one to four octets, and one octet exactly for ASCII |
| UriEncoding.EncodeUriComponent | app.js:199-200 | the encoding holds unreserved characters and `%` only |
| UriEncoding.EncodeConcat | app.js:199-200 | the encoding works character by character: it distributes over concatenation |
| UriEncoding.EncodeUnreserved | app.js:199-200 | a text of unreserved characters is its own encoding |
| UriEncoding.DecodeEscapeOfUtf8 | app.js:199-200 | the escapes of a character's UTF-8 octets decode back to that character, consuming exactly those escapes |
| UriEncoding.DecodeEncodedChar | app.js:199-200 | decoding an encoded character followed by any text gives that character before the decoding of the rest |
| UriEncoding.DecodeEncode | app.js:199-200 | `decodeURIComponent(encodeURIComponent(s)) == s` for every text |
| EmailText.ComposedSubject | app.js:163-177 | the generate handler's subject; stated by ComposeSubject and ComposedSubjectIsLine |
| EmailText.ComposedBody | app.js:166-177 | the generate handler's body; stated by ComposeOtherCategory and the template lemmas |
| EmailText.Compose | app.js:160-177 | the subject and body the generate handler writes; its round trip is GeneratedTextParsesBack |
| EmailText.Render | app.js:179 | `Subject: <subject>`, a blank line, then the body; its inverse is ParseRendered (RenderParseRoundTrip) |
| EmailText.ParseRendered | app.js:198 | the match of `/^Subject:\s*(.*)\n\n([\s\S]*)$/` as its two groups; stated by ParseRenderedIsFirstMatch |
| EmailText.MailtoFields | app.js:197-200 | the two groups, or `Re:` and the whole text; stated by MailtoFieldsSpec and MailtoWithoutTag |
| EmailText.MailtoUri | app.js:196-201 | the link built from the encoded fields; stated by MailtoUriParts |
| EmailText.ComposeSubject | app.js:161-177 | a letter's subject is the trimmed override exactly when the override has a non-space character, otherwise the template subject; any other category gives `Re:` |
| EmailText.ComposeOtherCategory | app.js:165-177 | a category other than `leader` and `mp` gives subject `Re:` and an empty body |
| EmailText.ComposedSubjectIsLine | app.js:163-177 | with single-line inputs, every composed subject is a non-empty line starting with a non-space |
| EmailText.LineEnd | app.js:198 | `(.*)` stops at the first line terminator or at the end |
| EmailText.SpaceEnd | app.js:198 | greedy `\s*` stops at the first non-space or at the end |
| EmailText.MatchLengthUnique | app.js:198 | for a given length of `\s*`, `(.*)` can match in only one way |
| EmailText.MatchRestAtSpec | app.js:198 | the rest of the pattern succeeds after `k` spaces exactly when a match with `\s*` taking `k` exists, and it yields that match's groups |
| EmailText.BacktrackSpacesNone | app.js:198 | backtracking over `\s*` fails exactly when no match has `\s*` that short |
| EmailText.BacktrackSpacesSome | app.js:198 | when backtracking succeeds, it returns the groups of the match whose `\s*` is longest |
| EmailText.ParseRenderedIsFirstMatch | app.js:198 | the parse fails exactly when the pattern cannot match, and otherwise returns the groups of the match the regular expression engine reaches first |
| EmailText.RenderParseRoundTrip | app.js:179-198 | a rendered email whose subject is one non-empty line not starting with a space parses back to the same subject and body |
| EmailText.EmptySubjectLosesBodyLineFeed | app.js:179-198 | with an empty subject the round trip can fail: the body's leading line feed is taken into the blank line |
| EmailText.GeneratedTextParsesBack | app.js:160-200 | with single-line inputs, the mail handler's fields of generated text are exactly the composed subject and body |
| EmailText.MailtoFieldsSpec | app.js:197-200 | with no match, the fields are `Re:` and the whole text; otherwise they are the groups of the first match |
| EmailText.MailtoWithoutTag | app.js:197-200 | text that does not start with `Subject:`, the empty text included, goes out whole as the body under `Re:` |
| EmailText.EncodedHasNoDelimiter | app.js:199-201 | an encoded field holds neither `&` nor `=` |
| EmailText.MailtoUriParts | app.js:196-202 | the link is the fixed prefix, an encoded subject, `&body=` and an encoded body; each part is free of `&` and `=` and decodes back to its field |
| Composer.Options | app.js:100 | the options a `forEach` of `addOption` adds: one per item, in order (the same shape serves app.js:108 and app.js:117) |
| Composer.PoliticiansOf | app.js:116 | a region that is not a key of the map has nobody, otherwise its list |
| Composer.EmailComposer.constructor | app.js:35-70 | the page after loading: nothing selected, every dependent area hidden, party options one per party in list order, region options the sorted codes with their labels |
| Composer.EmailComposer.PopulateParties | app.js:98-102 | the party list becomes one option per party, id and label, in list order |
| Composer.EmailComposer.PopulateStates | app.js:104-110 | the region list becomes the sorted region codes, each shown by its readable label |
| Composer.EmailComposer.PopulatePoliticians | app.js:112-119 | the representative selection is cleared and the list becomes the region's names in list order, or none for a missing region |
| Composer.EmailComposer.ChangeCategory | app.js:125-137 | hides the dependent areas, output and button; clears override, representative and list; shows party or region area with options; keeps party and region; the options area never hides; the invariant holds |
| Composer.EmailComposer.ChangeParty | app.js:140-143 | the generate button is shown and the output hidden, nothing else |
| Composer.EmailComposer.ChangeState | app.js:146-151 | the representative list is rebuilt for the region with nobody chosen, its area shown, output hidden, button left as it was |
| Composer.EmailComposer.ChangePolitician | app.js:154-157 | the generate button is shown and the output hidden, nothing else |
| Composer.EmailComposer.SetTone | app.js:162 | choosing a tone changes only the tone |
| Composer.EmailComposer.SetSubjectOverride | app.js:163 | typing a subject changes only the override |
| Composer.EmailComposer.Generate | app.js:160-181 | the output is the rendered composed email for the current selections and is shown; no selection changes |
| Composer.EmailComposer.MailtoHref | app.js:196-202 | the link is the mail link of the current output |
| Composer.GenerateTwice | app.js:160-181 | generating twice in a row writes the same text |
| Composer.RegionChangeKeepsGenerate | app.js:146-157 | choosing a representative and then another region leaves the button shown with nobody chosen |
| Composer.GenerateAndMail | app.js:160-202 | with single-line inputs, the link after generating carries exactly the composed subject and body, encoded |
| Examples.PartyALabel | app.js:87-91 | the first fallback party reads as `Party A` |
| Examples.LeaderSubjectExample | app.js:210 | the leader subject for `partyA` is `Request for meeting with Party A Party Leader` |
| Examples.LeaderGreetingExample | app.js:212 | the leader greeting for `partyA` is `Dear Party A Party Leader,` |
| Examples.FormalLeaderParagraphs | app.js:213-216 | in the formal tone the leader paragraphs open with the formal sentence |
| Examples.ConciseToneIsEmpty | app.js:251 | the concise tone has no sentence |
| Examples.NewSouthWalesLabel | app.js:261-265 | `new_south-wales` reads as `New South Wales` |
| Examples.MpExample | app.js:226 | the representative subject for `new_south-wales` and Jane Smith |
| Examples.MpConciseExample | app.js:232 | in the concise tone the representative paragraph starts with a single space |
| Examples.MailtoExampleFields | app.js:198-200 | `Subject: Foo\n\nBar\nBaz` splits into `Foo` and `Bar\nBaz` |
| Examples.EncodeBodyExample | app.js:200 | `Bar\nBaz` encodes as `Bar%0ABaz` |
| Examples.MailtoExample | app.js:196-201 | the link for that text is `mailto:?subject=Foo&body=Bar%0ABaz` |

## Left out

- Loading the data (`loadData`, app.js:75-93) is network input. The party list and region map are constructor parameters. The fallback party list is the constant `Labels.FallbackParties`.
- The initial form values come from the HTML page, which is not part of this model. The constructor starts with empty selections and takes the initial tone as a parameter.
- The search widget (Tom Select) is not modelled. That covers its search, its `sortField` display order, duplicate options, `maxOptions`, the placeholder, and whether `clear()` dispatches change events. Option lists are plain sequences in the order they were added.
- The copy button (clipboard, `execCommand`, `alert`) and the navigation to the link are browser effects. Only the link text is modelled.
- DOM lookup and the `hidden` class are modelled as one boolean per element.
- `lines[tone]` is modelled as a lookup in a four-key map. In JavaScript it would also find inherited properties such as `toString`.
- Labels.ReadablePartyUnknown: the lookup `map[code]` is modelled as a lookup of the object's own keys only. In JavaScript a code that names an inherited property, such as `toString` or `constructor`, finds that property, so `readableParty` returns a function rather than the code. Codes come from the party select, whose options are the loaded ids, so such a name can arrive only through the loaded data.
- Labels.ReadablePartyIsLabelOrCode: for the same inherited names, JavaScript returns neither the code nor a label; the model covers own keys only, for the reason above.
- Composer.PoliticiansOf: `DATA.politiciansByState[stateCode]` is modelled as an own-key lookup. For a region named like an inherited property, such as `constructor`, JavaScript finds that property, and `list.forEach` throws a TypeError before the handler shows or hides anything. Region codes come from the region select, whose options are the loaded keys, so such a name can arrive only through the loaded data.
- JavaScript strings are UTF-16 code units; the model's strings are Unicode scalar values. Lone surrogates, for which `encodeURIComponent` throws, cannot occur in the model. Sorting compares scalar values rather than code units, so the order differs only for characters above U+FFFF.
- Composer.EmailComposer.Generate: the page invariant is not part of its contract. It holds across the call because the method changes only the output text and its visibility, which the invariant does not read.
- The party and region option lists are not part of the page invariant. Their contents are fixed by the constructor's contract and no handler's frame includes them.
