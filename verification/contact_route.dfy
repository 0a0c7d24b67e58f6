/**
 * The contact-form endpoint (POST /api/contact, src/app/api/contact/route.js): it reads the
 * submitted form, checks the privacy agreement and the required fields, builds an SMTP
 * transport from the environment and sends one mail (HTML and plain text) to the
 * dealership, then answers with JSON.
 *
 * The request body arrives already parsed (`None` when it is not JSON), and whether the SMTP
 * server accepts the mail is the parameter `delivered`.
 */
module ContactRoute {
  import opened Wrappers
  import opened JsValues

  const Recipient := "info@autocenter-juelich.de"
  const DefaultSubject := "Kontaktformular"
  const PrivacyRequired := "Datenschutz muss best\U{00E4}tigt werden."
  const FieldsRequired := "Name, E-Mail und Nachricht sind Pflicht."
  const ServerError := "Serverfehler beim Senden. Bitte sp\U{00E4}ter erneut versuchen."
  const DefaultPort := 587
  const SubjectPrefix := "Kontaktformular: "

  // ---------------------------------------------------------------- the form

  /**
   * Whether the five `String(body?.key || "")` conversions all return: each throws for a
   * value that does not convert, and the handler answers such a body with its 500 reply.
   */
  predicate FormConverts(body: Value) {
    forall key | key in FormKeys :: Converts(Or(Get(body, key), Str("")))
  }

  /** The text fields the handler reads, in its order. */
  const FormKeys: seq<string> := ["name", "email", "phone", "subject", "message"]

  /** The form as the handler reads it: five trimmed texts and the agreement flag. */
  datatype ContactForm = ContactForm(
    name: string,
    email: string,
    phone: string,
    subject: string,
    message: string,
    agreement: bool)

  /** `String(body?.key || "").trim()`. */
  function FieldText(body: Value, key: string): (r: string)
    ensures IsTrimmed(r)
    ensures !Truthy(Get(body, key)) ==> r == ""
    ensures Get(body, key).Str? ==> r == Trim(Get(body, key).s)
  {
    Trim(ToJsString(Or(Get(body, key), Str(""))))
  }

  /** The form read from the parsed body; a blank subject becomes "Kontaktformular". */
  function ReadForm(body: Value): (f: ContactForm)
    ensures f.subject != "" && IsTrimmed(f.subject)
    ensures FieldText(body, "subject") != "" ==> f.subject == FieldText(body, "subject")
    ensures FieldText(body, "subject") == "" ==> f.subject == DefaultSubject
    ensures f.agreement <==> Truthy(Get(body, "agreement"))
    ensures f.name == FieldText(body, "name") && f.email == FieldText(body, "email")
    ensures f.phone == FieldText(body, "phone") && f.message == FieldText(body, "message")
  {
    var subject := FieldText(body, "subject");
    assert DefaultSubject != "" && IsTrimmed(DefaultSubject);
    ContactForm(
      name := FieldText(body, "name"),
      email := FieldText(body, "email"),
      phone := FieldText(body, "phone"),
      subject := if subject != "" then subject else DefaultSubject,
      message := FieldText(body, "message"),
      agreement := Truthy(Get(body, "agreement")))
  }

  /** A form the handler sends on: agreement given, name, e-mail and message not blank. */
  predicate IsComplete(f: ContactForm) {
    f.agreement && f.name != "" && f.email != "" && f.message != ""
  }

  /** The two checks in their order: the agreement first, then the required fields. */
  function Validate(f: ContactForm): (r: Option<string>)
    ensures r.None? <==> IsComplete(f)
    ensures !f.agreement ==> r == Some(PrivacyRequired)
    ensures f.agreement && !IsComplete(f) ==> r == Some(FieldsRequired)
  {
    if !f.agreement then Some(PrivacyRequired)
    else if f.name == "" || f.email == "" || f.message == "" then Some(FieldsRequired)
    else None
  }

  // ---------------------------------------------------------------- SMTP settings

  /** The SMTP environment variables; `None` is an unset variable. */
  datatype SmtpEnv = SmtpEnv(
    host: Option<string>,
    port: Option<string>,
    secure: Option<string>,
    user: Option<string>,
    pass: Option<string>,
    from: Option<string>)

  /** `process.env.X`: a string, or `undefined` when unset. */
  function EnvValue(v: Option<string>): (r: Value)
    ensures r.Undefined? || r.Str?
    ensures Truthy(r) <==> v.Some? && v.value != ""
  {
    if v.Some? then Str(v.value) else Undefined
  }

  /** The transport options handed to the mailer. */
  datatype Transport = Transport(host: Value, port: Value, secure: bool, user: Value, pass: Value)

  /** `Number(SMTP_PORT || 587)`: the default port when unset or empty, else the variable read as a number. */
  function PortFor(port: Option<string>): (r: Value)
    ensures r.Num? || r.NaN?
    ensures port.None? || port == Some("") ==> r == Num(DefaultPort)
    ensures forall n: int :: port == Some(DecimalString(n)) ==> r == Num(n)
  {
    var r := ToNumber(Or(EnvValue(port), Num(DefaultPort)));
    assert forall n: int :: port == Some(DecimalString(n)) ==> r == Num(n) by {
      forall n: int | port == Some(DecimalString(n))
        ensures r == Num(n)
      {
        PortOfDecimal(n);
      }
    }
    r
  }

  /** The transport: port `Number(SMTP_PORT || 587)`, TLS exactly when SMTP_SECURE is "true". */
  function TransportFor(env: SmtpEnv): (t: Transport)
    ensures t.port.Num? || t.port.NaN?
    ensures env.port.None? || env.port == Some("") ==> t.port == Num(DefaultPort)
    ensures forall n: int :: env.port == Some(DecimalString(n)) ==> t.port == Num(n)
    ensures t.secure <==> env.secure == Some("true")
    ensures t.host == EnvValue(env.host) && t.user == EnvValue(env.user) && t.pass == EnvValue(env.pass)
  {
    Transport(
      host := EnvValue(env.host),
      port := PortFor(env.port),
      secure := ToJsString(Or(EnvValue(env.secure), Str("false"))) == "true",
      user := EnvValue(env.user),
      pass := EnvValue(env.pass))
  }

  /** A port variable holding the decimal text of `n` sets the port `n`, even for "0". */
  lemma PortOfDecimal(n: int)
    ensures ToNumber(Or(Str(DecimalString(n)), Num(DefaultPort))) == Num(n)
  {
    assert DecimalString(n) != "";
    assert Or(Str(DecimalString(n)), Num(DefaultPort)) == Str(DecimalString(n));
    DecimalStringRoundTrip(n);
  }

  /** `SMTP_FROM || SMTP_USER`. */
  function Sender(env: SmtpEnv): (r: Value)
    ensures r.Undefined? || r.Str?
    ensures env.from.Some? && env.from.value != "" ==> r == Str(env.from.value)
    ensures (env.from.None? || env.from == Some("")) ==> r == EnvValue(env.user)
  {
    Or(EnvValue(env.from), EnvValue(env.user))
  }

  // ---------------------------------------------------------------- escapeHtml

  /** `s.replaceAll(c, with)` for a one-character pattern. */
  function ReplaceAll(s: string, c: char, with: string): (r: string)
    ensures c !in s ==> r == s
  {
    if s == "" then ""
    else (if s[0] == c then with else [s[0]]) + ReplaceAll(s[1..], c, with)
  }

  /** A pass whose replacement does not hold `c` leaves no `c` behind. */
  lemma {:induction false} ReplaceAllRemoves(s: string, c: char, with: string)
    requires c !in with
    ensures c !in ReplaceAll(s, c, with)
  {
    if s != "" {
      ReplaceAllRemoves(s[1..], c, with);
    }
  }

  /** A pass adds no character that neither the text nor the replacement holds. */
  lemma {:induction false} ReplaceAllKeepsOut(s: string, c: char, with: string, d: char)
    requires d !in s && d !in with
    ensures d !in ReplaceAll(s, c, with)
  {
    if s != "" {
      ReplaceAllKeepsOut(s[1..], c, with, d);
    }
  }

  /** Replacing distributes over concatenation. */
  lemma {:induction false} ReplaceAllAppend(a: string, b: string, c: char, with: string)
    ensures ReplaceAll(a + b, c, with) == ReplaceAll(a, c, with) + ReplaceAll(b, c, with)
  {
    if a == "" {
      assert a + b == b;
    } else {
      assert (a + b)[0] == a[0] && (a + b)[1..] == a[1..] + b;
      ReplaceAllAppend(a[1..], b, c, with);
    }
  }

  /**
   * `escapeHtml(str)`: five replaceAll passes, the ampersand first. The result holds no
   * character that could open or close a tag or end an attribute value, and text without
   * any of the five characters is left as it is.
   */
  function EscapeHtml(s: string): (r: string)
    ensures '<' !in r && '>' !in r && '"' !in r && '\'' !in r
    ensures '&' !in s && '<' !in s && '>' !in s && '"' !in s && '\'' !in s ==> r == s
  {
    EntitiesKeepOut();
    var s1 := ReplaceAll(s, '&', "&amp;");
    var s2 := ReplaceAll(s1, '<', "&lt;");
    ReplaceAllRemoves(s1, '<', "&lt;");
    var s3 := ReplaceAll(s2, '>', "&gt;");
    ReplaceAllRemoves(s2, '>', "&gt;");
    ReplaceAllKeepsOut(s2, '>', "&gt;", '<');
    var s4 := ReplaceAll(s3, '"', "&quot;");
    ReplaceAllRemoves(s3, '"', "&quot;");
    ReplaceAllKeepsOut(s3, '"', "&quot;", '<');
    ReplaceAllKeepsOut(s3, '"', "&quot;", '>');
    var r := ReplaceAll(s4, '\'', "&#039;");
    ReplaceAllRemoves(s4, '\'', "&#039;");
    ReplaceAllKeepsOut(s4, '\'', "&#039;", '<');
    ReplaceAllKeepsOut(s4, '\'', "&#039;", '>');
    ReplaceAllKeepsOut(s4, '\'', "&#039;", '"');
    r
  }

  /** The entities written by the later passes hold none of the characters the passes remove. */
  lemma EntitiesKeepOut()
    ensures '<' !in "&lt;" && '<' !in "&gt;" && '<' !in "&quot;" && '<' !in "&#039;"
    ensures '>' !in "&gt;" && '>' !in "&quot;" && '>' !in "&#039;"
    ensures '"' !in "&quot;" && '"' !in "&#039;" && '\'' !in "&#039;"
  {
  }

  /** The entity for one character, or the character itself. */
  function EscapeChar(c: char): (r: string)
    ensures '<' !in r && '>' !in r && '"' !in r && '\'' !in r
    ensures r != []
  {
    match c
    case '&' => "&amp;"
    case '<' => "&lt;"
    case '>' => "&gt;"
    case '"' => "&quot;"
    case '\'' => "&#039;"
    case _ => [c]
  }

  /** Escaping character by character. */
  function EscapeEach(s: string): (r: string)
    ensures '<' !in r && '>' !in r && '"' !in r && '\'' !in r
    ensures |r| >= |s|
  {
    if s == "" then ""
    else
      var head, rest := EscapeChar(s[0]), EscapeEach(s[1..]);
      assert forall x | x in head + rest :: x in head || x in rest;
      head + rest
  }

  /** A pass over a single character. */
  lemma ReplaceAllSingle(c: char, x: char, with: string)
    ensures ReplaceAll([c], x, with) == if c == x then with else [c]
  {
    assert ReplaceAll([c], x, with) == (if c == x then with else [c]) + ReplaceAll([], x, with);
  }

  /** The five passes on a single character give its entity: no pass rewrites an earlier entity. */
  lemma EscapeHtmlOfChar(c: char)
    ensures EscapeHtml([c]) == EscapeChar(c)
  {
    ReplaceAllSingle(c, '&', "&amp;");
    var s1 := ReplaceAll([c], '&', "&amp;");
    if c == '&' {
      assert '<' !in s1 && '>' !in s1 && '"' !in s1 && '\'' !in s1;
    } else {
      ReplaceAllSingle(c, '<', "&lt;");
      var s2 := ReplaceAll(s1, '<', "&lt;");
      if c == '<' {
        assert '>' !in s2 && '"' !in s2 && '\'' !in s2;
      } else {
        ReplaceAllSingle(c, '>', "&gt;");
        var s3 := ReplaceAll(s2, '>', "&gt;");
        if c == '>' {
          assert '"' !in s3 && '\'' !in s3;
        } else {
          ReplaceAllSingle(c, '"', "&quot;");
          ReplaceAllSingle(c, '\'', "&#039;");
          var s4 := ReplaceAll(s3, '"', "&quot;");
          if c == '"' {
            assert '\'' !in s4;
          }
        }
      }
    }
  }

  /**
   * The chain of passes is the same as escaping every character on its own: in particular
   * an `&` written by the user is escaped once, and an entity the user wrote stays visible.
   */
  lemma {:induction false} EscapeHtmlPerChar(s: string)
    ensures EscapeHtml(s) == EscapeEach(s)
  {
    if s != "" {
      assert s == [s[0]] + s[1..];
      var a, b := [s[0]], s[1..];
      ReplaceAllAppend(a, b, '&', "&amp;");
      var a1, b1 := ReplaceAll(a, '&', "&amp;"), ReplaceAll(b, '&', "&amp;");
      ReplaceAllAppend(a1, b1, '<', "&lt;");
      var a2, b2 := ReplaceAll(a1, '<', "&lt;"), ReplaceAll(b1, '<', "&lt;");
      ReplaceAllAppend(a2, b2, '>', "&gt;");
      var a3, b3 := ReplaceAll(a2, '>', "&gt;"), ReplaceAll(b2, '>', "&gt;");
      ReplaceAllAppend(a3, b3, '"', "&quot;");
      var a4, b4 := ReplaceAll(a3, '"', "&quot;"), ReplaceAll(b3, '"', "&quot;");
      ReplaceAllAppend(a4, b4, '\'', "&#039;");
      assert EscapeHtml(s) == EscapeHtml(a) + EscapeHtml(b);
      EscapeHtmlOfChar(s[0]);
      EscapeHtmlPerChar(b);
    }
  }

  /** The entity at the start of `s`, if any: the character it stands for and its length. */
  function LeadingEntity(s: string): (r: Option<(char, nat)>)
    ensures r.Some? ==> 0 < r.value.1 <= |s|
  {
    if |s| >= 5 && s[..5] == "&amp;" then Some(('&', 5))
    else if |s| >= 4 && s[..4] == "&lt;" then Some(('<', 4))
    else if |s| >= 4 && s[..4] == "&gt;" then Some(('>', 4))
    else if |s| >= 6 && s[..6] == "&quot;" then Some(('"', 6))
    else if |s| >= 6 && s[..6] == "&#039;" then Some(('\'', 6))
    else None
  }

  /** How a browser reads the five entities back. */
  function UnescapeHtml(s: string): string
    decreases |s|
  {
    if s == "" then ""
    else match LeadingEntity(s)
      case Some((c, k)) => [c] + UnescapeHtml(s[k..])
      case None => [s[0]] + UnescapeHtml(s[1..])
  }

  /** An escaped character followed by anything starts with its own entity, or with no entity at all. */
  lemma LeadingEntityOfEscape(c: char, rest: string)
    ensures var e := EscapeChar(c);
            LeadingEntity(e + rest) == if |e| == 1 then None else Some((c, |e|))
  {
    var e := EscapeChar(c);
    var s := e + rest;
    assert s[..|e|] == e;
    if c == '&' {
    } else if c == '<' {
      assert s[1] == 'l';
    } else if c == '>' {
      assert s[1] == 'g';
    } else if c == '"' {
      assert s[1] == 'q';
    } else if c == '\'' {
      assert s[1] == '#';
    } else {
      assert s[0] == c;
    }
  }

  /** Reading one escaped character back. */
  lemma UnescapeOfEscapeChar(c: char, rest: string)
    ensures UnescapeHtml(EscapeChar(c) + rest) == [c] + UnescapeHtml(rest)
  {
    var e := EscapeChar(c);
    LeadingEntityOfEscape(c, rest);
    assert (e + rest)[|e|..] == rest;
  }

  /** The recipient's mail client shows exactly what the user typed: escaping loses nothing. */
  lemma {:induction false} EscapeHtmlRoundTrip(s: string)
    ensures UnescapeHtml(EscapeHtml(s)) == s
  {
    EscapeHtmlPerChar(s);
    EscapeEachRoundTrip(s);
  }

  /** Reading back a character-by-character escape. */
  lemma {:induction false} EscapeEachRoundTrip(s: string)
    ensures UnescapeHtml(EscapeEach(s)) == s
  {
    if s != "" {
      UnescapeOfEscapeChar(s[0], EscapeEach(s[1..]));
      EscapeEachRoundTrip(s[1..]);
    }
  }

  // ---------------------------------------------------------------- the mail

  /** The opening of the HTML body, up to the escaped name. */
  const HtmlHead := "\n      <div style=\"font-family:Arial,sans-serif;line-height:1.5\">\n        <h2>Neue Kontaktanfrage</h2>\n        <p><b>Name:</b> "
  const HtmlAfterName := "</p>\n        <p><b>E-Mail:</b> "
  const HtmlAfterEmail := "</p>\n        "
  const HtmlPhoneOpen := "<p><b>Telefon:</b> "
  const HtmlPhoneClose := "</p>"
  const HtmlBeforeSubject := "\n        <p><b>Betreff:</b> "
  const HtmlAfterSubject := "</p>\n        <hr />\n        <p style=\"white-space:pre-wrap\">"
  const HtmlTail := "</p>\n      </div>\n    "

  /**
   * The HTML body: the template with every field escaped, the phone paragraph only when a
   * phone was given. Whatever the user types, the body holds exactly the template's markup:
   * the number of every markup character depends on nothing but whether a phone was given.
   */
  function Html(f: ContactForm): (r: string)
    ensures forall c | IsMarkupChar(c) :: Count(r, c) == TemplateCount(f.phone != "", c)
  {
    var r := HtmlFront(f) + HtmlPhone(f) + HtmlBack(f);
    forall c | IsMarkupChar(c)
      ensures Count(r, c) == TemplateCount(f.phone != "", c)
    {
      HtmlMarkupCount(f, c);
    }
    r
  }

  /** A markup character occurs in the assembled body only where the template has it. */
  lemma HtmlMarkupCount(f: ContactForm, c: char)
    requires IsMarkupChar(c)
    ensures Count(HtmlFront(f) + HtmlPhone(f) + HtmlBack(f), c) == TemplateCount(f.phone != "", c)
  {
    EscapedFieldsHaveNoMarkup(f, c);
    TemplateShare(f, c);
  }

  /** With no `c` in any escaped field, every `c` of the body comes from the template. */
  lemma TemplateShare(f: ContactForm, c: char)
    requires Count(EscapeHtml(f.name), c) == 0 && Count(EscapeHtml(f.email), c) == 0
    requires Count(EscapeHtml(f.phone), c) == 0 && Count(EscapeHtml(f.subject), c) == 0
    requires Count(EscapeHtml(f.message), c) == 0
    ensures Count(HtmlFront(f) + HtmlPhone(f) + HtmlBack(f), c) == TemplateCount(f.phone != "", c)
  {
    HtmlCount(f, c);
  }

  /** How often `c` occurs in the template itself, with or without the phone paragraph. */
  function TemplateCount(withPhone: bool, c: char): nat {
    Count(HtmlHead, c) + Count(HtmlAfterName, c) + Count(HtmlAfterEmail, c)
    + (if withPhone then Count(HtmlPhoneOpen, c) + Count(HtmlPhoneClose, c) else 0)
    + Count(HtmlBeforeSubject, c) + Count(HtmlAfterSubject, c) + Count(HtmlTail, c)
  }

  /** The heading, the name and the e-mail lines. */
  function HtmlFront(f: ContactForm): string {
    HtmlHead + EscapeHtml(f.name) + HtmlAfterName + EscapeHtml(f.email) + HtmlAfterEmail
  }

  /** The phone paragraph, or nothing. */
  function HtmlPhone(f: ContactForm): string {
    if f.phone != "" then HtmlPhoneOpen + EscapeHtml(f.phone) + HtmlPhoneClose else ""
  }

  /** The subject line, the rule, the message and the closing tag. */
  function HtmlBack(f: ContactForm): string {
    HtmlBeforeSubject + EscapeHtml(f.subject) + HtmlAfterSubject + EscapeHtml(f.message) + HtmlTail
  }

  /** How often `c` occurs in `s`. */
  function Count(s: string, c: char): (n: nat)
    ensures n <= |s|
  {
    if s == "" then 0 else (if s[0] == c then 1 else 0) + Count(s[1..], c)
  }

  /** A character is counted zero times exactly when it does not occur. */
  lemma {:induction false} CountZero(s: string, c: char)
    ensures Count(s, c) == 0 <==> c !in s
  {
    if s != "" {
      CountZero(s[1..], c);
      assert s == [s[0]] + s[1..];
    }
  }

  /** Counting distributes over concatenation. */
  lemma {:induction false} CountAppend(a: string, b: string, c: char)
    ensures Count(a + b, c) == Count(a, c) + Count(b, c)
  {
    if a == "" {
      assert a + b == b;
    } else {
      assert (a + b)[0] == a[0] && (a + b)[1..] == a[1..] + b;
      CountAppend(a[1..], b, c);
    }
  }

  /** The count of a character in the HTML body: the template's share plus the escaped fields'. */
  lemma HtmlCount(f: ContactForm, c: char)
    ensures Count(HtmlFront(f) + HtmlPhone(f) + HtmlBack(f), c)
            == Count(HtmlHead, c) + Count(EscapeHtml(f.name), c) + Count(HtmlAfterName, c)
               + Count(EscapeHtml(f.email), c) + Count(HtmlAfterEmail, c)
               + (if f.phone != "" then Count(HtmlPhoneOpen, c) + Count(EscapeHtml(f.phone), c) + Count(HtmlPhoneClose, c) else 0)
               + Count(HtmlBeforeSubject, c) + Count(EscapeHtml(f.subject), c) + Count(HtmlAfterSubject, c)
               + Count(EscapeHtml(f.message), c) + Count(HtmlTail, c)
  {
    CountAppend(HtmlFront(f), HtmlPhone(f), c);
    CountAppend(HtmlFront(f) + HtmlPhone(f), HtmlBack(f), c);
    HtmlFrontCount(f, c);
    HtmlPhoneCount(f, c);
    HtmlBackCount(f, c);
  }

  /** The count in the heading, name and e-mail lines. */
  lemma HtmlFrontCount(f: ContactForm, c: char)
    ensures Count(HtmlFront(f), c)
            == Count(HtmlHead, c) + Count(EscapeHtml(f.name), c) + Count(HtmlAfterName, c)
               + Count(EscapeHtml(f.email), c) + Count(HtmlAfterEmail, c)
  {
    var p1 := HtmlHead + EscapeHtml(f.name);
    var p2 := p1 + HtmlAfterName;
    var p3 := p2 + EscapeHtml(f.email);
    CountAppend(HtmlHead, EscapeHtml(f.name), c);
    CountAppend(p1, HtmlAfterName, c);
    CountAppend(p2, EscapeHtml(f.email), c);
    CountAppend(p3, HtmlAfterEmail, c);
  }

  /** The count in the phone paragraph, which is empty without a phone. */
  lemma HtmlPhoneCount(f: ContactForm, c: char)
    ensures Count(HtmlPhone(f), c)
            == if f.phone != "" then Count(HtmlPhoneOpen, c) + Count(EscapeHtml(f.phone), c) + Count(HtmlPhoneClose, c) else 0
  {
    if f.phone != "" {
      CountAppend(HtmlPhoneOpen, EscapeHtml(f.phone), c);
      CountAppend(HtmlPhoneOpen + EscapeHtml(f.phone), HtmlPhoneClose, c);
    }
  }

  /** The count in the subject line, the rule, the message and the closing tag. */
  lemma HtmlBackCount(f: ContactForm, c: char)
    ensures Count(HtmlBack(f), c)
            == Count(HtmlBeforeSubject, c) + Count(EscapeHtml(f.subject), c) + Count(HtmlAfterSubject, c)
               + Count(EscapeHtml(f.message), c) + Count(HtmlTail, c)
  {
    var p1 := HtmlBeforeSubject + EscapeHtml(f.subject);
    var p2 := p1 + HtmlAfterSubject;
    var p3 := p2 + EscapeHtml(f.message);
    CountAppend(HtmlBeforeSubject, EscapeHtml(f.subject), c);
    CountAppend(p1, HtmlAfterSubject, c);
    CountAppend(p2, EscapeHtml(f.message), c);
    CountAppend(p3, HtmlTail, c);
  }

  /** The characters that open or close a tag or delimit an attribute value. */
  predicate IsMarkupChar(c: char) {
    c == '<' || c == '>' || c == '"' || c == '\''
  }

  /** No escaped field of a form contains a markup character. */
  lemma EscapedFieldsHaveNoMarkup(f: ContactForm, c: char)
    requires IsMarkupChar(c)
    ensures Count(EscapeHtml(f.name), c) == 0 && Count(EscapeHtml(f.email), c) == 0
    ensures Count(EscapeHtml(f.phone), c) == 0 && Count(EscapeHtml(f.subject), c) == 0
    ensures Count(EscapeHtml(f.message), c) == 0
  {
    CountZero(EscapeHtml(f.name), c);
    CountZero(EscapeHtml(f.email), c);
    CountZero(EscapeHtml(f.phone), c);
    CountZero(EscapeHtml(f.subject), c);
    CountZero(EscapeHtml(f.message), c);
  }

  /** The lines of the plain-text body before `filter(Boolean)`. */
  function TextLines(f: ContactForm): seq<string> {
    [ "Neue Kontaktanfrage",
      "Name: " + f.name,
      "E-Mail: " + f.email,
      if f.phone != "" then "Telefon: " + f.phone else "",
      "Betreff: " + f.subject,
      "",
      f.message ]
  }

  /**
   * The plain-text body: the non-empty lines joined by newlines, that is the heading, name,
   * e-mail, the phone line only when a phone was given, the subject and the message when it
   * is not empty, one per line. The empty spacer line is filtered out with the other empty
   * entries, so no blank line separates the subject from the message.
   */
  function TextBody(f: ContactForm): (r: string)
    ensures r == Join("\n", TextBodyLines(f))
  {
    KeptLines(f);
    Join("\n", FilterNonEmpty(TextLines(f)))
  }

  /** The lines the plain-text body keeps. */
  function TextBodyLines(f: ContactForm): seq<string> {
    ["Neue Kontaktanfrage", "Name: " + f.name, "E-Mail: " + f.email]
    + (if f.phone != "" then ["Telefon: " + f.phone] else [])
    + (["Betreff: " + f.subject] + (if f.message != "" then [f.message] else []))
  }

  /** Filtering the empty entries keeps exactly `TextBodyLines`. */
  lemma KeptLines(f: ContactForm)
    ensures FilterNonEmpty(TextLines(f)) == TextBodyLines(f)
  {
    var head := ["Neue Kontaktanfrage", "Name: " + f.name, "E-Mail: " + f.email];
    var phone := [if f.phone != "" then "Telefon: " + f.phone else ""];
    var tail := ["Betreff: " + f.subject, "", f.message];
    assert TextLines(f) == head + phone + tail;
    FilterNonEmptyAppend(head + phone, tail);
    FilterNonEmptyAppend(head, phone);
    FilterNonEmptyKeepsNonEmpty(head);
    assert FilterNonEmpty(phone) == if f.phone != "" then ["Telefon: " + f.phone] else [];
    KeptTail("Betreff: " + f.subject, f.message);
  }

  /** The subject line, the spacer and the message, with the empty entries filtered out. */
  lemma KeptTail(subject: string, message: string)
    requires subject != ""
    ensures FilterNonEmpty([subject, "", message]) == [subject] + (if message != "" then [message] else [])
  {
    assert [subject, "", message] == [subject] + ([""] + [message]);
    FilterNonEmptyAppend([subject], [""] + [message]);
    FilterNonEmptyAppend([""], [message]);
  }

  /** A mail as handed to the mailer. */
  datatype Mail = Mail(from: Value, to: string, replyTo: string, subject: string, html: string, text: string)

  /** The mail for a form. */
  function MailFor(f: ContactForm, env: SmtpEnv): (m: Mail)
    ensures m.to == Recipient && m.replyTo == f.email && m.from == Sender(env)
    ensures |m.subject| == |SubjectPrefix| + |f.subject|
    ensures m.subject[..|SubjectPrefix|] == SubjectPrefix && m.subject[|SubjectPrefix|..] == f.subject
    ensures m.html == Html(f) && m.text == TextBody(f)
  {
    Mail(
      from := Sender(env),
      to := Recipient,
      replyTo := f.email,
      subject := SubjectPrefix + f.subject,
      html := Html(f),
      text := TextBody(f))
  }

  // ---------------------------------------------------------------- the handler

  /** The JSON answer. */
  datatype ResponseBody = OkBody | ErrorBody(error: string)

  datatype Response = Response(status: int, body: ResponseBody)

  /** What one request produces: the answer, and the transport and mail when one was sent. */
  datatype Exchange = Exchange(response: Response, sent: Option<(Transport, Mail)>)

  /**
   * `POST(req)`: `body` is the parsed request body (`None` when `req.json()` fails) and
   * `delivered` whether `sendMail` succeeds; every failure inside the handler, a field
   * that does not convert to a string among them, answers 500.
   */
  function Post(body: Option<Value>, env: SmtpEnv, delivered: bool): (x: Exchange)
    ensures body.None? ==> x == Exchange(Response(500, ErrorBody(ServerError)), None)
    ensures body.Some? && !FormConverts(body.value) ==> x == Exchange(Response(500, ErrorBody(ServerError)), None)
    ensures x.sent.Some? <==> body.Some? && FormConverts(body.value) && IsComplete(ReadForm(body.value))
    ensures body.Some? && FormConverts(body.value) && !Truthy(Get(body.value, "agreement")) ==>
              x == Exchange(Response(400, ErrorBody(PrivacyRequired)), None)
    ensures body.Some? && FormConverts(body.value) && Truthy(Get(body.value, "agreement"))
            && !IsComplete(ReadForm(body.value)) ==>
              x == Exchange(Response(400, ErrorBody(FieldsRequired)), None)
    ensures x.response.status == 200 <==> x.sent.Some? && delivered
    ensures x.response.status == 200 ==> x.response.body == OkBody
    ensures x.sent.Some? && !delivered ==> x.response == Response(500, ErrorBody(ServerError))
    ensures x.sent.Some? ==> x.sent.value == (TransportFor(env), MailFor(ReadForm(body.value), env))
  {
    match body
    case None => Exchange(Response(500, ErrorBody(ServerError)), None)
    case Some(b) =>
      if !FormConverts(b) then Exchange(Response(500, ErrorBody(ServerError)), None)
      else
      var f := ReadForm(b);
      match Validate(f)
      case Some(error) => Exchange(Response(400, ErrorBody(error)), None)
      case None =>
        var sent := Some((TransportFor(env), MailFor(f, env)));
        if delivered then Exchange(Response(200, OkBody), sent)
        else Exchange(Response(500, ErrorBody(ServerError)), sent)
  }

  /** A sent mail always has a reply address, a non-empty message and the fixed recipient. */
  lemma SentMailFields(body: Option<Value>, env: SmtpEnv, delivered: bool)
    requires Post(body, env, delivered).sent.Some?
    ensures var m := Post(body, env, delivered).sent.value.1;
            m.to == Recipient && m.replyTo != "" && IsTrimmed(m.replyTo)
            && m.replyTo == FieldText(body.value, "email")
  {
  }
}
