/**
 * The contact form: a draft of three text fields, the validity flag derived
 * from it, the `mailto:` link it assembles and the send control that shows
 * both.
 */
module Contact {
  import opened Wrappers
  import opened JsText
  import opened Strings
  import EmailPattern
  import UriComponent
  import MailtoUri

  datatype Draft = Draft(name: string, fromEmail: string, message: string)

  /** The state of a freshly mounted form. */
  const EmptyDraft: Draft := Draft("", "", "")

  /** The destination address the page passes to the form. */
  const ProfileEmail: string := "saikiran.mamidi44@gmail.com"

  const SubjectPrefix: string := "Portfolio contact from "
  const AnonymousSender: string := "Someone"
  const FromLabel: string := "From: "
  const EmailLabel: string := "Email: "

  // ---------------------------------------------------------------------
  // Validity
  // ---------------------------------------------------------------------

  /**
   * `name.trim().length > 1`: holds exactly when the name has a stretch from
   * one non-space character to another longer than one code unit.
   */
  predicate NameOk(name: string)
    ensures NameOk(name) <==> exists i, j :: SolidSpanLonger(name, i, j, 1)
  {
    TrimmedLongerThan(name, 1);
    JsLength(Trim(name)) > 1
  }

  /**
   * `message.trim().length > 5`: holds exactly when the message has such a
   * stretch longer than five code units.
   */
  predicate MessageOk(message: string)
    ensures MessageOk(message) <==> exists i, j :: SolidSpanLonger(message, i, j, 5)
  {
    TrimmedLongerThan(message, 5);
    JsLength(Trim(message)) > 5
  }

  /** The form's `valid` flag. */
  predicate Valid(d: Draft) {
    NameOk(d.name) && EmailPattern.MatchesEmailPattern(d.fromEmail) && MessageOk(d.message)
  }

  /**
   * `valid` in terms of the raw fields: the name has a stretch from one
   * non-space character to another longer than one code unit, the address
   * matches `.+@.+\..+` somewhere, and the message has such a stretch
   * longer than five code units.
   */
  lemma ValidIff(d: Draft)
    ensures Valid(d) <==>
      && (exists i, j :: SolidSpanLonger(d.name, i, j, 1))
      && EmailPattern.RegexTest(d.fromEmail)
      && (exists i, j :: SolidSpanLonger(d.message, i, j, 5))
  {
    TrimmedLongerThan(d.name, 1);
    TrimmedLongerThan(d.message, 5);
  }

  /** A name made only of white space and line terminators never passes. */
  lemma BlankNameInvalid(d: Draft)
    requires forall k :: 0 <= k < |d.name| ==> IsStrippable(d.name[k])
    ensures !Valid(d)
  {
  }

  /** A one-character name passes only if that character is astral (two UTF-16 code units). */
  lemma SingleCharName(d: Draft)
    requires |d.name| == 1
    ensures NameOk(d.name) <==> d.name[0] as int >= 0x1_0000
  {
    var t := Trim(d.name);
    if IsStrippable(d.name[0]) {
      assert t == [];
    } else {
      assert t == d.name;
    }
  }

  /** A freshly mounted form is not valid, and its subject names "Someone". */
  lemma EmptyDraftInvalid()
    ensures !Valid(EmptyDraft)
    ensures Subject(EmptyDraft.name) == SubjectPrefix + AnonymousSender
  {
    BlankNameNotOk();
    AnonymousSubject();
  }

  lemma AnonymousSubject()
    ensures Subject("") == SubjectPrefix + AnonymousSender
  {
    assert Sender("") == AnonymousSender;
  }

  lemma BlankNameNotOk()
    ensures !NameOk("")
  {
    assert Trim("") == "";
  }

  lemma ValidExample()
    ensures Valid(Draft("Al", "a@b.co", "Hello there"))
  {
    ExampleNameOk();
    ExampleMessageOk();
    EmailPatternExamples();
  }

  lemma ExampleNameOk()
    ensures NameOk("Al")
  {
    var name := "Al";
    assert name[0] == 'A' && name[|name| - 1] == 'l';
    TrimmedLengthOfSolidText(name);
  }

  lemma ExampleMessageOk()
    ensures MessageOk("Hello there")
  {
    var message := "Hello there";
    assert message[0] == 'H' && message[|message| - 1] == 'e';
    TrimmedLengthOfSolidText(message);
  }

  /** Addresses the sender-address test accepts and rejects. */
  lemma EmailPatternExamples()
    ensures EmailPattern.RegexTest("a@b.co")
    ensures EmailPattern.RegexTest("x a@@b.c y")
    ensures !EmailPattern.RegexTest("@b.co")
    ensures !EmailPattern.RegexTest("a@b")
    ensures !EmailPattern.RegexTest("a.b@c")
    ensures !EmailPattern.RegexTest("a\n@b.co")
  {
    assert EmailPattern.MatchesEmailPattern("a@b.co");
    assert EmailPattern.MatchesEmailPattern("x a@@b.c y");
    assert !EmailPattern.MatchesEmailPattern("@b.co");
    assert !EmailPattern.MatchesEmailPattern("a@b");
    assert !EmailPattern.MatchesEmailPattern("a.b@c");
    assert !EmailPattern.MatchesEmailPattern("a\n@b.co");
  }

  // ---------------------------------------------------------------------
  // Subject and body
  // ---------------------------------------------------------------------

  /** JavaScript `name || "Someone"`: only the empty string is falsy. */
  function Sender(name: string): (r: string)
    ensures r != ""
    ensures name != "" ==> r == name
  {
    if name == "" then AnonymousSender else name
  }

  /** The subject line: the fixed prefix, then a non-empty sender. */
  function Subject(name: string): (r: string)
    ensures StartsWith(r, SubjectPrefix) && |r| > |SubjectPrefix|
  {
    SubjectPrefix + Sender(name)
  }

  /**
   * The subject shows the name exactly as typed (blank names included) and
   * falls back to "Someone" only for the empty name, so two subjects agree
   * exactly when the names agree or are "" and "Someone".
   */
  lemma SubjectIdentifiesSender(a: string, b: string)
    ensures StartsWith(Subject(a), SubjectPrefix)
    ensures a != "" ==> Subject(a)[|SubjectPrefix|..] == a
    ensures Subject(a) == Subject(b) <==>
      a == b || (a == "" && b == AnonymousSender) || (a == AnonymousSender && b == "")
  {
    if Subject(a) == Subject(b) {
      assert Subject(a)[|SubjectPrefix|..] == Sender(a);
      assert Subject(b)[|SubjectPrefix|..] == Sender(b);
    }
  }

  /** The message, a blank line, then the sender's name and address on their own lines. */
  function Body(d: Draft): (r: string)
    ensures StartsWith(r, d.message)
    ensures |d.fromEmail| <= |r| && r[|r| - |d.fromEmail|..] == d.fromEmail
  {
    d.message + "\n\n" + FromLabel + d.name + "\n" + EmailLabel + d.fromEmail
  }

  /** Reads a body back from its last three lines. */
  function ParseBody(b: string): Option<Draft> {
    match SplitLastLine(b)
    case None => None
    case Some((head, emailLine)) =>
      match SplitLastLine(head)
      case None => None
      case Some((pre, fromLine)) =>
        match (StripPrefix(emailLine, EmailLabel), StripPrefix(fromLine, FromLabel))
        case (Some(fromEmail), Some(name)) =>
          if pre != [] && pre[|pre| - 1] == '\n' then Some(Draft(name, fromEmail, pre[..|pre| - 1])) else None
        case _ => None
  }

  /**
   * Round trip: when neither the name nor the address holds a line break,
   * the body determines all three fields, in the order message, name,
   * address.
   */
  lemma ParseBodyRoundTrip(d: Draft)
    requires '\n' !in d.name && '\n' !in d.fromEmail
    ensures ParseBody(Body(d)) == Some(d)
  {
    var emailLine := EmailLabel + d.fromEmail;
    var fromLine := FromLabel + d.name;
    var pre := d.message + "\n";
    var head := pre + ['\n'] + fromLine;
    assert Body(d) == head + ['\n'] + emailLine;
    SplitLastLineOf(head, emailLine);
    SplitLastLineOf(pre, fromLine);
    StripPrefixOf(EmailLabel, d.fromEmail);
    StripPrefixOf(FromLabel, d.name);
    assert pre[..|pre| - 1] == d.message;
  }

  // ---------------------------------------------------------------------
  // The mailto link
  // ---------------------------------------------------------------------

  /** The template `mailto:${email}?subject=${subject}&body=${body}`; it always opens with the address and the subject field. */
  function Mailto(email: string, d: Draft): (r: string)
    ensures StartsWith(r, "mailto:" + email + "?subject=")
  {
    var prefix := "mailto:" + email + "?subject=";
    var r := prefix
      + UriComponent.EncodeURIComponent(Subject(d.name))
      + "&body=" + UriComponent.EncodeURIComponent(Body(d));
    assert r[..|prefix|] == prefix;
    r
  }

  /** The template `mailto:${email}?subject=${s}&body=${b}` read as scheme, address, '?', two `name=value` pairs. */
  lemma MailtoShape(email: string, es: string, eb: string)
    ensures "mailto:" + email + "?subject=" + es + "&body=" + eb
         == MailtoUri.Scheme + email + "?" + ("subject" + "=" + es) + "&" + ("body" + "=" + eb)
  {
  }

  /**
   * Round trip through an RFC 6068 reader: whenever the address holds no
   * '?' and no '#', the link starts with `mailto:<email>?subject=` and reads back as
   * that address with exactly two header fields, the subject and the body,
   * in that order and with their text intact.
   */
  lemma MailtoRoundTrip(email: string, d: Draft)
    requires '?' !in email && '#' !in email
    ensures StartsWith(Mailto(email, d), "mailto:" + email + "?subject=")
    ensures MailtoUri.Parse(Mailto(email, d))
         == Some(MailtoUri.Mailto(email, [MailtoUri.Hfield("subject", Subject(d.name)),
                                         MailtoUri.Hfield("body", Body(d))]))
  {
    var es := UriComponent.EncodeURIComponent(Subject(d.name));
    var eb := UriComponent.EncodeURIComponent(Body(d));
    MailtoShape(email, es, eb);
    MailtoUri.ParseTwoFields(email, "subject", Subject(d.name), "body", Body(d));
  }

  /**
   * The link the page actually renders, for its own address: it opens with
   * `mailto:saikiran.mamidi44@gmail.com?subject=` and reads back as that
   * address with the subject and body fields.
   */
  lemma ProfileLink(d: Draft)
    ensures StartsWith(Mailto(ProfileEmail, d), "mailto:saikiran.mamidi44@gmail.com?subject=")
    ensures MailtoUri.Parse(Mailto(ProfileEmail, d))
         == Some(MailtoUri.Mailto(ProfileEmail, [MailtoUri.Hfield("subject", Subject(d.name)),
                                                MailtoUri.Hfield("body", Body(d))]))
  {
    ProfileEmailPlain();
    MailtoRoundTrip(ProfileEmail, d);
    ProfilePrefix();
  }

  lemma ProfileEmailPlain()
    ensures '?' !in ProfileEmail && '#' !in ProfileEmail
  {
    assert forall k :: 0 <= k < |ProfileEmail| ==> ProfileEmail[k] != '?' && ProfileEmail[k] != '#';
  }

  lemma ProfilePrefix()
    ensures "mailto:" + ProfileEmail + "?subject=" == "mailto:saikiran.mamidi44@gmail.com?subject="
  {
  }

  // ---------------------------------------------------------------------
  // The send control
  // ---------------------------------------------------------------------

  const ReadyText: string := "Ready to send"
  const HintText: string := "Fill all fields to enable"

  /** The "Send Email" anchor and the status line beside it. */
  datatype SendControl = SendControl(href: string, ariaDisabled: bool, highlighted: bool, status: string)

  function Control(email: string, d: Draft): (c: SendControl)
    ensures c.ariaDisabled <==> !Valid(d)
    ensures c.highlighted <==> Valid(d)
    ensures c.status == ReadyText <==> Valid(d)
  {
    var ok := Valid(d);
    SendControl(Mailto(email, d), !ok, ok, if ok then ReadyText else HintText)
  }

  /**
   * The gate is cosmetic: valid or not, the control links to the same
   * well-formed `mailto:` URI carrying the draft; only the accessibility
   * flag, the highlight and the status text depend on validity.
   */
  lemma GateIsCosmetic(email: string, d: Draft)
    requires '?' !in email && '#' !in email
    ensures Control(email, d).href == Mailto(email, d)
    ensures MailtoUri.Parse(Control(email, d).href).Some?
    ensures Control(email, d).ariaDisabled <==> Control(email, d).status != ReadyText
  {
    MailtoRoundTrip(email, d);
  }

  // ---------------------------------------------------------------------
  // The stateful form
  // ---------------------------------------------------------------------

  /** The mounted form: the destination address and the three fields its inputs overwrite. */
  class ContactForm {
    const email: string
    var name: string
    var fromEmail: string
    var message: string

    constructor (email: string)
      ensures this.email == email && Current() == EmptyDraft
    {
      this.email := email;
      name, fromEmail, message := "", "", "";
    }

    function Current(): Draft
      reads this
    {
      Draft(name, fromEmail, message)
    }

    /** The control the form renders for its current fields. */
    function Rendered(): (c: SendControl)
      reads this
      ensures c.ariaDisabled <==> !Valid(Current())
      ensures c.href == Mailto(email, Current())
    {
      Control(email, Current())
    }

    method SetName(value: string)
      modifies this`name
      ensures Current() == old(Current()).(name := value)
    {
      name := value;
    }

    method SetFromEmail(value: string)
      modifies this`fromEmail
      ensures Current() == old(Current()).(fromEmail := value)
    {
      fromEmail := value;
    }

    method SetMessage(value: string)
      modifies this`message
      ensures Current() == old(Current()).(message := value)
    {
      message := value;
    }
  }
}
