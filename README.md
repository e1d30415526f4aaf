# Portfolio contact form and project links, in Dafny

The portfolio page is almost all markup over fixed data. Two pieces of it
behave in ways worth stating. The first is the contact form (`ContactForm`
in `portfolio/src/App.tsx`). The second is the rule that picks a project
card's link.

The contact form keeps a draft of three text fields: `name`, `fromEmail`
and `message`. Each input overwrites its own field. From the draft the form
derives two things:

- a `valid` flag:
  - the trimmed name is longer than one UTF-16 code unit;
  - the address matches `/.+@.+\..+/` somewhere;
  - the trimmed message is longer than five code units;
- a `mailto:` link. Its `subject` and `body` header fields are run through
  `encodeURIComponent`.

The "Send Email" anchor always carries that link. `valid` only sets
`aria-disabled`, the styling and the "Ready to send" status. A project card
links to its `href` in a new tab when `href` is non-empty. Otherwise it is a
placeholder pointing at `#`.

Modules, one per file:

- `JsText` (`js_text.dfy`): ECMAScript line terminators and white space,
  `trim`, and `.length` as a UTF-16 code-unit count.
- `EmailPattern` (`email_pattern.dfy`): what the regular expression test
  means, and an executable matcher proved equal to it.
- `Utf8` (`utf8.dfy`): UTF-8 encoding and a strict decoder, with their round trip.
- `UriComponent` (`uri_component.dfy`): `encodeURIComponent` (section
  19.2.6.5 of ECMA-262). Also percent-decoding (section 2.1 of RFC 3986) and
  the round trip between the two.
- `Strings` (`strings.dfy`): searching, splitting and prefix stripping.
- `MailtoUri` (`mailto_uri.dfy`): a reader for `mailto:` URIs laid out as
  section 2 of RFC 6068 describes. It is the reader used to state the
  link's round trip.
- `Contact` (`contact.dfy`): the draft, `valid`, the subject, the body, the
  link and the send control. Also the `ContactForm` class with its three
  setters.
- `ProjectCard` (`project_card.dfy`): the card's `href`, `target` and `rel`.
- `Wrappers` (`wrappers.dfy`): `Option`.

Text is a Dafny `string`, a sequence of Unicode scalar values. A lone
surrogate cannot occur, so `encodeURIComponent` never reaches its `URIError`
path. `trim` strips ECMAScript's whole WhiteSpace and LineTerminator sets,
written out as a fixed list of code points. `.length` counts astral
characters as two. As a result, a name made of one emoji (two code units)
passes the name test.

## Model

| member | source | states |
|---|---|---|
| JsText.IsLineTerminator | portfolio/src/App.tsx:126 | no contract of its own: ECMAScript's LineTerminator set (LF, CR, U+2028, U+2029), used by `JsText.Trim` and by the regex's `.`; characterised through `JsText.TrimmedLongerThan` and `EmailPattern.RegexTestIffWitness` |
| JsText.IsWhiteSpace | portfolio/src/App.tsx:126 | no contract of its own: ECMAScript's WhiteSpace set, written out as a list of code points; characterised through `JsText.TrimmedLongerThan` |
| JsText.IsStrippable | portfolio/src/App.tsx:126 | no contract of its own: what `trim()` removes, white space or a line terminator; the ensures of `JsText.TrimStart`, `JsText.TrimEnd` and `JsText.Trim` are stated in terms of it |
| JsText.TrimStart | portfolio/src/App.tsx:126 | the result is a suffix of the input; everything dropped is white space or a line terminator; the result does not start with one |
| JsText.TrimEnd | portfolio/src/App.tsx:126 | the result is a prefix of the input; everything dropped is strippable; the result does not end with a strippable character |
| JsText.Trim | portfolio/src/App.tsx:126 | `trim()` returns a slice of the input; only strippable characters lie outside it; it neither starts nor ends with one |
| JsText.JsLength | portfolio/src/App.tsx:126 | `.length` counts UTF-16 code units: between the character count and twice that |
| JsText.JsLengthBmp | portfolio/src/App.tsx:126 | without astral characters, `.length` is the character count |
| JsText.TrimKeepsSolidText | portfolio/src/App.tsx:126 | text that starts and ends with a non-space character is left unchanged by `trim()` |
| JsText.TrimmedLengthOfSolidText | portfolio/src/App.tsx:126 | such text, without astral characters, has its own character count as its trimmed `.length` |
| JsText.TrimmedLongerThan | portfolio/src/App.tsx:126 | `trim(s).length > k` holds iff some stretch of `s` from a non-space character to a non-space character is longer than `k` code units |
| EmailPattern.RegexTestIffWitness | portfolio/src/App.tsx:126 | the unanchored test of `.+@.+\..+` holds iff some index `a` ≥ 1 has '@' and some `d` ≥ `a`+2 has '.'. It also needs `d`+1 < length and no line terminator from `a`-1 through `d`+1 |
| EmailPattern.DotAfter | portfolio/src/App.tsx:126 | scanning from `k` finds a '.' for the '@' at `a` iff a witness with that '@' and a '.' at or after `k` exists |
| EmailPattern.DotAfterAt | portfolio/src/App.tsx:126 | for an '@' preceded by a non-terminator, some '.' completes a witness iff the scan started just past the '@' succeeds |
| EmailPattern.AtFrom | portfolio/src/App.tsx:126 | the search from index `a` succeeds iff a witness with its '@' at `a` or later exists |
| EmailPattern.MatchesEmailPattern | portfolio/src/App.tsx:126 | the executable test agrees with the regular expression's meaning on every input |
| Utf8.EncodeChar | portfolio/src/App.tsx:121-122 | one to four octets; a single octet exactly for ASCII; every octet after the first is a continuation octet |
| Utf8.Encode | portfolio/src/App.tsx:121-122 | the UTF-8 form has between one and four octets per character |
| Utf8.DecodeFirst | portfolio/src/App.tsx:121-122 | a successful read consumes between one and four octets, never more than there are |
| Utf8.DecodeFirstEncodeChar | portfolio/src/App.tsx:121-122 | the decoder reads back exactly the character the encoder wrote, and its octet count, whatever follows |
| Utf8.DecodeEncode | portfolio/src/App.tsx:121-122 | decoding the UTF-8 form of any text gives the text back |
| UriComponent.HexDigit | portfolio/src/App.tsx:121-122 | each nibble becomes an upper-case hex digit that reads back as the same nibble |
| UriComponent.Escape | portfolio/src/App.tsx:121-122 | escaping gives three characters per octet, in encoded form |
| UriComponent.EncodeChar | portfolio/src/App.tsx:121-122 | one character's encoding is in encoded form |
| UriComponent.EncodeURIComponent | portfolio/src/App.tsx:121-122 | the output contains only unreserved characters and `%XX` triples with upper-case hex digits |
| UriComponent.EncodedFormConcat | portfolio/src/App.tsx:121-122 | joining two encoded forms gives an encoded form |
| UriComponent.EncodedFormChars | portfolio/src/App.tsx:121-122 | every character of an encoded form is unreserved or '%' |
| UriComponent.EncodedHasNoDelimiters | portfolio/src/App.tsx:121-122 | the encoding never contains '&', '=', '?', '#' or a space |
| UriComponent.EncodeUnreservedText | portfolio/src/App.tsx:121-122 | text made only of unreserved characters is its own encoding |
| UriComponent.PercentBytesTriple | portfolio/src/App.tsx:121-122 | one escaped octet decodes to that octet in front of whatever the rest decodes to |
| UriComponent.PercentBytesEscape | portfolio/src/App.tsx:121-122 | an escaped octet string decodes to those octets in front of the rest |
| UriComponent.PercentBytesEncodeChar | portfolio/src/App.tsx:121-122 | one encoded character decodes to its UTF-8 octets in front of the rest |
| UriComponent.PercentBytesEncode | portfolio/src/App.tsx:121-122 | percent-decoding the encoding of any text gives its UTF-8 octets |
| UriComponent.DecodeEncode | portfolio/src/App.tsx:121-122 | percent-decoding `encodeURIComponent(s)` gives back `s` |
| MailtoUri.ParseHfields | portfolio/src/App.tsx:123 | a successful read yields one header field per `&`-separated part |
| MailtoUri.ParseEncodedHfield | portfolio/src/App.tsx:121-123 | `name=encodeURIComponent(value)` reads back as the pair (name, value) when the name is plain |
| MailtoUri.ParseWithQuery | portfolio/src/App.tsx:123 | the address runs up to the first '?' and the query follows it |
| MailtoUri.ParseQueryTwo | portfolio/src/App.tsx:121-123 | a query of two encoded pairs joined by '&' reads back as exactly those two pairs, in order |
| MailtoUri.ParseTwoFields | portfolio/src/App.tsx:121-123 | `mailto:<to>?n1=enc(v1)&n2=enc(v2)` reads back as `to` and the two pairs, whenever `to` has no '?' and no '#' |
| Contact.NameOk | portfolio/src/App.tsx:126 | `name.trim().length > 1` holds iff the name has a stretch from a non-space character to a non-space character longer than one code unit |
| Contact.MessageOk | portfolio/src/App.tsx:126 | `message.trim().length > 5` holds iff the message has such a stretch longer than five code units |
| Contact.Valid | portfolio/src/App.tsx:126 | no contract of its own: the conjunction of the three tests; characterised by `Contact.ValidIff`, `Contact.EmptyDraftInvalid` and `Contact.ValidExample` |
| Contact.ValidIff | portfolio/src/App.tsx:126 | `valid` holds iff the name has a non-space stretch longer than one code unit, the address passes the regex test, and the message has one longer than five |
| Contact.BlankNameInvalid | portfolio/src/App.tsx:126 | a name of white space only never passes |
| Contact.SingleCharName | portfolio/src/App.tsx:126 | a one-character name passes the name test only if it is astral |
| Contact.EmptyDraftInvalid | portfolio/src/App.tsx:117-121 | the freshly mounted draft is invalid and its subject names "Someone" |
| Contact.ValidExample | portfolio/src/App.tsx:126 | the draft ("Al", "a@b.co", "Hello there") is valid |
| Contact.EmailPatternExamples | portfolio/src/App.tsx:126 | "a@b.co" and "x a@@b.c y" pass; "@b.co", "a@b", "a.b@c" and "a\n@b.co" fail |
| Contact.Sender | portfolio/src/App.tsx:121 | the sender is never empty, and it is the name as typed whenever the name is non-empty |
| Contact.Subject | portfolio/src/App.tsx:121 | the subject starts with "Portfolio contact from " and has a sender after it; `Contact.SubjectIdentifiesSender` says which |
| Contact.SubjectIdentifiesSender | portfolio/src/App.tsx:121 | the subject is the fixed prefix and then the name as typed, untrimmed. Two subjects agree iff the names do, or the names are "" and "Someone" |
| Contact.Body | portfolio/src/App.tsx:122 | the body starts with the message and ends with the sender's address; `Contact.ParseBodyRoundTrip` gives the layout between them |
| Contact.ParseBodyRoundTrip | portfolio/src/App.tsx:122 | when name and address have no line break, the body reads back as message, name and address in that order |
| Contact.Mailto | portfolio/src/App.tsx:120-124 | the link always starts with `mailto:<email>?subject=`; `Contact.MailtoRoundTrip` gives the rest |
| Contact.MailtoShape | portfolio/src/App.tsx:123 | the link template is scheme, address, '?' and two `name=value` fields joined by '&' |
| Contact.MailtoRoundTrip | portfolio/src/App.tsx:120-124 | when the address has no '?' and no '#', the link starts with `mailto:<email>?subject=`. An RFC 6068 reader then gets the address back, plus exactly two header fields: subject then body, text intact |
| Contact.ProfileLink | portfolio/src/App.tsx:200 | with the page's own address, the link starts with `mailto:saikiran.mamidi44@gmail.com?subject=` and reads back as that address with the subject and body fields |
| Contact.Control | portfolio/src/App.tsx:161-173 | `aria-disabled` is `!valid`; the highlighted style and "Ready to send" appear iff `valid` |
| Contact.GateIsCosmetic | portfolio/src/App.tsx:161-173 | valid or not, the anchor's href is the same well-formed mailto link; only the accessibility flag, the highlight and the status text differ |
| Contact.ContactForm.constructor | portfolio/src/App.tsx:116-119 | a mounted form holds its destination address and an empty draft |
| Contact.ContactForm.Current | portfolio/src/App.tsx:117-119 | no contract of its own: the draft held in the three fields; the constructor and the setters state their effect through it |
| Contact.ContactForm.Rendered | portfolio/src/App.tsx:120-126 | the rendered control is derived from the current fields alone: href is their mailto link and `aria-disabled` is their invalidity |
| Contact.ContactForm.SetName | portfolio/src/App.tsx:138 | the name input replaces the name and leaves address and message unchanged |
| Contact.ContactForm.SetFromEmail | portfolio/src/App.tsx:147 | the address input replaces the address and leaves name and message unchanged |
| Contact.ContactForm.SetMessage | portfolio/src/App.tsx:157 | the message input replaces the message and leaves name and address unchanged |
| ProjectCard.Truthy | portfolio/src/App.tsx:98-100 | no contract of its own: JavaScript truthiness of the optional `href`, present and non-empty; characterised by `ProjectCard.CardLinkChoice` and `ProjectCard.EmptyLinkIsPlaceholder` |
| ProjectCard.CardLink | portfolio/src/App.tsx:96-100 | the href is never empty, and `target` is set exactly when `rel` is |
| ProjectCard.CardLinkChoice | portfolio/src/App.tsx:98-100 | `target="_blank"` and `rel="noreferrer"` appear iff href is present and non-empty. The link is then that href, otherwise "#" with neither attribute |
| ProjectCard.EmptyLinkIsPlaceholder | portfolio/src/App.tsx:98 | an absent href and an empty href give the same "#" placeholder |

## Left out

- Markup, styling classes, icons and the fixed profile, skill, project,
  experience and certification data: presentation only.
- The staggered reveal-on-scroll animation: it is timing and viewport
  observation inside a third-party animation library.
- Browser behaviour: in-page anchor scrolling, opening the mail client or a
  new tab, and the form's `preventDefault` on submit.
- The footer year: it reads the clock.
- React's `useState` and `useMemo` machinery. The draft is a class with
  three fields and setters, and the derived values are functions of those
  fields. So "same fields, same link and flag" holds by construction.
- MailtoUri.Parse: the address part before '?' is returned as written, not
  percent-decoded. The form inserts the address unencoded, so the round
  trip needs an address without '?' or '#' (a '#' starts the URI's
  fragment, which the reader sets aside).
- Contact.ParseBodyRoundTrip: a name or address holding a line break makes
  the body ambiguous, so the round trip is stated only for drafts without one.
- JsText.IsWhiteSpace: the space-separator list is fixed in the model and
  does not follow later Unicode versions.
