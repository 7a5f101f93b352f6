/**
 * The contact form: per-field validation rules, the form state the handlers
 * update (field values, the error map, the submission status) and the submit
 * state machine with its honeypot short-circuit.
 */
module ContactForm {
  import opened Strings
  import opened Js

  datatype Field = Name | Email | Message | Honeypot

  datatype Status = Idle | Submitting | Success | Error

  const MinNameLength: nat := 2
  const MaxNameLength: nat := 100
  const MinMessageLength: nat := 10
  const MaxMessageLength: nat := 1000

  /** The rule a field value breaks; `Text` is the message shown under the field. */
  datatype ValidationError =
    | NameRequired | NameTooShort | NameTooLong
    | EmailRequired | EmailInvalid
    | MessageRequired | MessageTooShort | MessageTooLong
  {
    function Text(): (t: string)
      ensures t != ""
    {
      match this
      case NameRequired => "Name is required"
      case NameTooShort => "Name must be at least 2 characters"
      case NameTooLong => "Name must be less than 100 characters"
      case EmailRequired => "Email is required"
      case EmailInvalid => "Please enter a valid email address"
      case MessageRequired => "Message is required"
      case MessageTooShort => "Message must be at least 10 characters"
      case MessageTooLong => "Message must be less than 1000 characters"
    }
  }

  /** The address the composed message is handed to. */
  const Recipient := "rajeevkavala@example.com"

  /** One run of `[^\s@]+`: at least one character, none of them whitespace or '@'. */
  predicate IsEmailToken(t: string) {
    t != [] && forall i :: 0 <= i < |t| ==> !IsSpace(t[i]) && t[i] != '@'
  }

  /** The strings `^[^\s@]+@[^\s@]+\.[^\s@]+$` matches, read off the pattern. */
  ghost predicate IsEmailShape(s: string) {
    exists a, b, c {:trigger IsEmailToken(a), IsEmailToken(b), IsEmailToken(c)} ::
      IsEmailToken(a) && IsEmailToken(b) && IsEmailToken(c) && s == a + "@" + b + "." + c
  }

  /** The pattern test as a scan: no whitespace anywhere, one '@' that is not
      the first character, and a '.' after it with text on both sides. */
  predicate EmailRegexTest(s: string) {
    var at := IndexOf(s, '@');
    && 0 < at
    && at + 4 <= |s|
    && NoSpace(s)
    && '@' !in s[at + 1..]
    && '.' in s[at + 2..|s| - 1]
  }

  lemma ScanFindsPattern(s: string)
    requires EmailRegexTest(s)
    ensures IsEmailShape(s)
  {
    var at := IndexOf(s, '@');
    var k :| at + 2 <= k < |s| - 1 && s[k] == '.' by {
      var m :| 0 <= m < |s| - 1 - (at + 2) && s[at + 2..|s| - 1][m] == '.';
      assert s[at + 2 + m] == '.';
    }
    var a, b, c := s[..at], s[at + 1..k], s[k + 1..];
    assert s == a + "@" + b + "." + c;
    assert IsEmailToken(a) by {
      forall i | 0 <= i < |a| ensures !IsSpace(a[i]) && a[i] != '@' { assert a[i] == s[i]; }
    }
    assert IsEmailToken(b) by {
      forall i | 0 <= i < |b| ensures !IsSpace(b[i]) && b[i] != '@' {
        assert b[i] == s[at + 1 + i] == s[at + 1..][i];
      }
    }
    assert IsEmailToken(c) by {
      forall i | 0 <= i < |c| ensures !IsSpace(c[i]) && c[i] != '@' {
        assert c[i] == s[k + 1 + i] == s[at + 1..][k - at + i];
      }
    }
  }

  lemma PatternPassesScan(s: string, a: string, b: string, c: string)
    requires IsEmailToken(a) && IsEmailToken(b) && IsEmailToken(c)
    requires s == a + "@" + b + "." + c
    ensures EmailRegexTest(s)
  {
    var at := |a|;
    var dot := at + 1 + |b|;
    assert forall k :: 0 <= k < at ==> s[k] == a[k];
    assert s[at] == '@';
    assert IndexOf(s, '@') == at;
    assert forall k :: at < k < dot ==> s[k] == b[k - at - 1];
    assert s[dot] == '.';
    assert forall k :: dot < k < |s| ==> s[k] == c[k - dot - 1];
    assert at + 1 < dot < |s| - 1;
    assert s[at + 2..|s| - 1][dot - at - 2] == '.';
    assert '@' !in s[at + 1..] by {
      var rest := s[at + 1..];
      forall i | 0 <= i < |rest| ensures rest[i] != '@' {
        assert rest[i] == s[at + 1 + i];
      }
    }
  }

  /** The scan accepts exactly the strings the pattern matches. */
  lemma EmailRegexMatchesPattern(s: string)
    ensures EmailRegexTest(s) <==> IsEmailShape(s)
  {
    if EmailRegexTest(s) {
      ScanFindsPattern(s);
    }
    if IsEmailShape(s) {
      var a, b, c :| IsEmailToken(a) && IsEmailToken(b) && IsEmailToken(c) && s == a + "@" + b + "." + c;
      PatternPassesScan(s, a, b, c);
    }
  }

  /** A string the pattern matches is never blank once trimmed, so the
      "required" check adds nothing to the pattern. */
  lemma EmailShapeNotBlank(s: string)
    ensures (Trim(s) != "" && EmailRegexTest(s)) <==> IsEmailShape(s)
  {
    EmailRegexMatchesPattern(s);
    if IsEmailShape(s) {
      TrimNoSpace(s);
    }
  }

  /** `validateField`: the first rule the trimmed value breaks, or none; only
      name, email and message have rules. Lengths are `.length`, in UTF-16 code
      units. The email pattern is matched against the untrimmed value. */
  function ValidateField(field: Field, value: string): Option<ValidationError> {
    var t := Trim(value);
    match field
    case Name =>
      if t == "" then Some(NameRequired)
      else if Utf16Length(t) < MinNameLength then Some(NameTooShort)
      else if Utf16Length(t) > MaxNameLength then Some(NameTooLong)
      else None
    case Email =>
      if t == "" then Some(EmailRequired)
      else if !EmailRegexTest(value) then Some(EmailInvalid)
      else None
    case Message =>
      if t == "" then Some(MessageRequired)
      else if Utf16Length(t) < MinMessageLength then Some(MessageTooShort)
      else if Utf16Length(t) > MaxMessageLength then Some(MessageTooLong)
      else None
    case Honeypot => None
  }

  /** What each rule accepts: a range for the trimmed length, in UTF-16 code
      units, for the name and the message, the pattern for the email, anything
      for the honeypot. */
  lemma ValidateFieldMeans(field: Field, value: string)
    ensures field == Honeypot ==> ValidateField(field, value) == None
    ensures field == Name ==>
      (ValidateField(field, value) == None <==> MinNameLength <= Utf16Length(Trim(value)) <= MaxNameLength)
    ensures field == Email ==> (ValidateField(field, value) == None <==> IsEmailShape(value))
    ensures field == Message ==>
      (ValidateField(field, value) == None <==> MinMessageLength <= Utf16Length(Trim(value)) <= MaxMessageLength)
  {
    if field == Email {
      EmailShapeNotBlank(value);
    }
  }

  /** Which message each rule gives: the rules are tried in order and the first
      one broken decides. */
  lemma ValidateFieldMessages(value: string)
    ensures var n := Utf16Length(Trim(value));
      && (n == 0 ==>
            && ValidateField(Name, value) == Some(NameRequired)
            && ValidateField(Email, value) == Some(EmailRequired)
            && ValidateField(Message, value) == Some(MessageRequired))
      && (0 < n < MinNameLength ==> ValidateField(Name, value) == Some(NameTooShort))
      && (n > MaxNameLength ==> ValidateField(Name, value) == Some(NameTooLong))
      && (0 < n < MinMessageLength ==> ValidateField(Message, value) == Some(MessageTooShort))
      && (n > MaxMessageLength ==> ValidateField(Message, value) == Some(MessageTooLong))
      && (n > 0 && !IsEmailShape(value) ==> ValidateField(Email, value) == Some(EmailInvalid))
  {
    EmailRegexMatchesPattern(value);
  }

  /** An empty name, a one-letter name and an ordinary name. */
  lemma NameExamples()
    ensures ValidateField(Name, "") == Some(NameRequired)
    ensures ValidateField(Name, "A") == Some(NameTooShort)
    ensures ValidateField(Name, "Alice") == None
  {
    TrimNoSpace("A");
    TrimNoSpace("Alice");
  }

  /** An address without `@`, such as "bad", is rejected. */
  lemma EmailExampleBad()
    ensures ValidateField(Email, "bad") == Some(EmailInvalid)
  {
    TrimNoSpace("bad");
    assert IndexOf("bad", '@') == -1;
  }

  /** The shortest kind of address, "a@b.co", is accepted. */
  lemma EmailExampleGood()
    ensures ValidateField(Email, "a@b.co") == None
  {
    TrimNoSpace("a@b.co");
    assert "a@b.co" == "a" + "@" + "b" + "." + "co";
    PatternPassesScan("a@b.co", "a", "b", "co");
  }

  /** Messages of 5, 1001 and 50 code units. */
  lemma MessageExamples(short: string, long: string, medium: string)
    requires NoSpace(short) && Utf16Length(short) == 5
    requires NoSpace(long) && Utf16Length(long) == 1001
    requires NoSpace(medium) && Utf16Length(medium) == 50
    ensures ValidateField(Message, short) == Some(MessageTooShort)
    ensures ValidateField(Message, long) == Some(MessageTooLong)
    ensures ValidateField(Message, medium) == None
  {
    TrimNoSpace(short);
    TrimNoSpace(long);
    TrimNoSpace(medium);
  }

  /** The four inputs of the form; the honeypot is hidden from people. */
  datatype FormData = FormData(name: string, email: string, message: string, honeypot: string) {
    function Get(f: Field): string {
      match f
      case Name => name
      case Email => email
      case Message => message
      case Honeypot => honeypot
    }

    /** `{ ...prev, [f]: v }`. */
    function With(f: Field, v: string): (d: FormData)
      ensures d.Get(f) == v
      ensures forall g :: g != f ==> d.Get(g) == Get(g)
    {
      match f
      case Name => this.(name := v)
      case Email => this.(email := v)
      case Message => this.(message := v)
      case Honeypot => this.(honeypot := v)
    }
  }

  const EmptyForm := FormData("", "", "", "")

  /** Adds one field's result to the error map. The literal `validateForm`
      builds holds an `undefined` entry for a field that passes; here the field
      is left out of the map instead, which reads the same. */
  function Record(m: map<Field, ValidationError>, f: Field, e: Option<ValidationError>): (r: map<Field, ValidationError>)
    ensures ErrorOf(r, f) == (if e.Some? then e else ErrorOf(m, f))
    ensures forall g :: g != f ==> ErrorOf(r, g) == ErrorOf(m, g)
  {
    if e.Some? then m[f := e.value] else m
  }

  /** The error shown under field `f`, if any. */
  function ErrorOf(m: map<Field, ValidationError>, f: Field): Option<ValidationError> {
    if f in m then Some(m[f]) else None
  }

  /** The map built from the three visible fields' results, in that order. */
  function ErrorMap(name: Option<ValidationError>, email: Option<ValidationError>, message: Option<ValidationError>):
    (m: map<Field, ValidationError>)
    ensures ErrorOf(m, Name) == name && ErrorOf(m, Email) == email && ErrorOf(m, Message) == message
    ensures Honeypot !in m
  {
    Record(Record(Record(map[], Name, name), Email, email), Message, message)
  }

  /** The error map `validateForm` builds: one entry per visible field that breaks a rule. */
  function ErrorsFor(d: FormData): (m: map<Field, ValidationError>)
    ensures forall f :: ErrorOf(m, f) == ValidateField(f, d.Get(f))
  {
    ErrorMap(ValidateField(Name, d.name), ValidateField(Email, d.email), ValidateField(Message, d.message))
  }

  /** Every field satisfies its rule. */
  predicate FormValid(d: FormData) {
    forall f :: ValidateField(f, d.Get(f)) == None
  }

  /** The form is valid exactly when the error map `validateForm` builds is empty. */
  lemma {:induction false} FormValidIffNoErrors(d: FormData)
    ensures FormValid(d) <==> ErrorsFor(d) == map[]
  {
    var m := ErrorsFor(d);
    if FormValid(d) {
      assert m.Keys == {} by {
        forall f ensures f !in m {
          assert ErrorOf(m, f) == ValidateField(f, d.Get(f));
        }
      }
    } else {
      var f :| ValidateField(f, d.Get(f)) != None;
      assert ErrorOf(m, f) != None;
    }
  }

  /** The form is valid exactly when the trimmed name and message lengths are
      in range and the email matches the pattern; the honeypot plays no part. */
  lemma FormValidMeans(d: FormData)
    ensures FormValid(d) <==>
      && MinNameLength <= Utf16Length(Trim(d.name)) <= MaxNameLength
      && IsEmailShape(d.email)
      && MinMessageLength <= Utf16Length(Trim(d.message)) <= MaxMessageLength
    ensures FormValid(d) <==> FormValid(d.With(Honeypot, ""))
  {
    ValidateFieldMeans(Name, d.name);
    ValidateFieldMeans(Email, d.email);
    ValidateFieldMeans(Message, d.message);
    assert FormValid(d) <==>
      ValidateField(Name, d.Get(Name)) == None && ValidateField(Email, d.Get(Email)) == None && ValidateField(Message, d.Get(Message)) == None;
    var d' := d.With(Honeypot, "");
    assert FormValid(d') <==>
      ValidateField(Name, d'.Get(Name)) == None && ValidateField(Email, d'.Get(Email)) == None && ValidateField(Message, d'.Get(Message)) == None;
  }

  /** `characterCount`: the counter under the message box, the raw
      message's `.length`. */
  function CharacterCount(d: FormData): (r: nat)
    ensures r >= |d.message|
    ensures r >= Utf16Length(Trim(d.message))
  {
    Utf16LengthTrim(d.message);
    Utf16Length(d.message)
  }

  /** `isOverLimit`: the counter turns red. */
  predicate IsOverLimit(d: FormData) {
    CharacterCount(d) > MaxMessageLength
  }

  /** The counter counts the raw message while the rule counts the trimmed
      one: a message the rule accepts can show the counter over the limit. */
  lemma CounterCanExceedAcceptedMessage(d: FormData, text: string, pad: string)
    requires d.message == text + pad
    requires NoSpace(text) && Utf16Length(text) == MaxMessageLength
    requires AllSpace(pad) && pad != []
    ensures ValidateField(Message, d.message) == None
    ensures IsOverLimit(d)
  {
    TrimTrailingSpace(text, pad);
    Utf16LengthAppend(text, pad);
  }

  /** The counter never understates the rule: a message rejected as too long
      always shows the counter over the limit, and for a message with no
      whitespace at either end the two agree exactly. */
  lemma CounterAgreesWithRule(d: FormData)
    ensures ValidateField(Message, d.message) == Some(MessageTooLong) ==> IsOverLimit(d)
    ensures Trim(d.message) == d.message ==>
      (IsOverLimit(d) <==> ValidateField(Message, d.message) == Some(MessageTooLong))
  {
    Utf16LengthTrim(d.message);
  }

  /** A character outside the Basic Multilingual Plane, such as an emoji,
      counts as two: a name of one emoji passes the two-character minimum. */
  lemma EmojiNameExample()
    ensures ValidateField(Name, "\U{1F600}") == None
  {
    TrimNoSpace("\U{1F600}");
    assert Utf16Length("\U{1F600}") == 2 by {
      assert "\U{1F600}"[..0] == [];
    }
  }

  /** The outbound message, before URI encoding. */
  datatype MailDraft = MailDraft(to: string, subject: string, body: string)

  /** The message composed from the field values, which appear verbatim: the
      name ends the subject; the body starts with the name, then the email
      after the `Email: ` label, and ends with the message. */
  function Compose(d: FormData): (m: MailDraft)
    ensures m.to == Recipient
    ensures |d.name| <= |m.subject| && m.subject[|m.subject| - |d.name|..] == d.name
    ensures var e := 6 + |d.name| + 8;
      && e + |d.email| <= |m.body|
      && m.body[..6] == "Name: " && m.body[6..6 + |d.name|] == d.name
      && m.body[6 + |d.name|..e] == "\nEmail: " && m.body[e..e + |d.email|] == d.email
    ensures |d.message| <= |m.body| && m.body[|m.body| - |d.message|..] == d.message
  {
    MailDraft(Recipient, "Portfolio Contact from " + d.name,
              "Name: " + d.name + "\nEmail: " + d.email + "\n\nMessage:\n" + d.message)
  }

  /** Sets or clears one entry of the error map, as `{ ...prev, [f]: e }` does. */
  function SetError(m: map<Field, ValidationError>, f: Field, e: Option<ValidationError>): map<Field, ValidationError> {
    match e
    case Some(msg) => m[f := msg]
    case None => m - {f}
  }

  class ContactFormState {
    var formData: FormData
    /** A field absent from the map has no error to show. */
    var errors: map<Field, ValidationError>
    var status: Status
    /** The submission started by a valid submit and not finished yet, with
        the message composed from the values it captured (`isPending`). */
    var pending: Option<MailDraft>

    /** The hidden honeypot never shows an error, nothing ever enters the
        error state, and a submission is in flight exactly while submitting. */
    ghost predicate Valid()
      reads this
    {
      && Honeypot !in errors
      && status != Error
      && (pending.Some? <==> status == Submitting)
    }

    constructor ()
      ensures Valid()
      ensures formData == EmptyForm && errors == map[] && status == Idle && pending == None
    {
      formData := EmptyForm;
      errors := map[];
      status := Idle;
      pending := None;
    }

    /** The inputs are disabled while submitting. */
    predicate InputsDisabled()
      reads this
    {
      status == Submitting
    }

    /** The submit button is disabled while submitting or while a submission is pending. */
    predicate SubmitDisabled()
      reads this
    {
      status == Submitting || pending.Some?
    }

    /** `validateForm`: replaces the whole error map with fresh results. */
    method ValidateForm() returns (valid: bool)
      requires Valid()
      modifies this`errors
      ensures Valid()
      ensures errors == ErrorsFor(formData)
      ensures valid <==> FormValid(formData)
    {
      var e := map[];
      var nameError := ValidateField(Name, formData.name);
      e := Record(e, Name, nameError);
      var emailError := ValidateField(Email, formData.email);
      e := Record(e, Email, emailError);
      var messageError := ValidateField(Message, formData.message);
      e := Record(e, Message, messageError);
      errors := e;
      valid := |e| == 0;
      FormValidIffNoErrors(formData);
    }

    /** `handleChange`: stores the new value and clears, never sets, that field's error. */
    method HandleChange(field: Field, value: string)
      requires Valid()
      modifies this`formData, this`errors
      ensures Valid()
      ensures formData == old(formData).With(field, value)
      ensures errors == old(errors) - {field}
    {
      formData := formData.With(field, value);
      if field in errors {
        errors := errors - {field};
      }
    }

    /** `handleBlur`: sets that field's error to what its rule says of the value. */
    method HandleBlur(field: Field, value: string)
      requires Valid()
      modifies this`errors
      ensures Valid()
      ensures errors == SetError(old(errors), field, ValidateField(field, value))
    {
      var e := ValidateField(field, value);
      errors := SetError(errors, field, e);
    }

    /** `handleSubmit` up to the point where the transition starts. A filled
        honeypot reports success without validating or composing anything; an
        invalid form only refreshes the errors; a valid one starts submitting.
        The browser does not dispatch a submit while the button is disabled. */
    method HandleSubmit() returns (started: bool)
      requires Valid() && !SubmitDisabled()
      modifies this
      ensures Valid()
      ensures formData == old(formData)
      ensures old(formData.honeypot) != "" ==>
        !started && status == Success && errors == old(errors) && pending == None
      ensures old(formData.honeypot) == "" ==>
        errors == ErrorsFor(formData) && (started <==> FormValid(formData))
      ensures old(formData.honeypot) == "" && started ==>
        status == Submitting && pending == Some(Compose(formData))
      ensures old(formData.honeypot) == "" && !started ==>
        status == old(status) && pending == None
    {
      if formData.honeypot != "" {
        status := Success;
        return false;
      }
      var valid := ValidateForm();
      if !valid {
        return false;
      }
      status := Submitting;
      pending := Some(Compose(formData));
      started := true;
    }

    /** The rest of the transition, after the delay: hands off the message
        composed at submit time, reports success and clears all four fields. */
    method FinishSubmission() returns (sent: MailDraft)
      requires Valid() && pending.Some?
      modifies this
      ensures Valid()
      ensures sent == old(pending).value
      ensures status == Success && formData == EmptyForm && pending == None
      ensures errors == old(errors)
    {
      sent := pending.value;
      status := Success;
      formData := EmptyForm;
      pending := None;
    }
  }

  /** A valid form goes idle, then submitting, then success, cleared, and the
      message handed off carries the values typed. */
  method SubmitValidForm(name: string, email: string, message: string)
    returns (sent: MailDraft, wentThroughSubmitting: bool, status: Status, after: FormData)
    requires FormValid(FormData(name, email, message, ""))
    ensures sent == Compose(FormData(name, email, message, ""))
    ensures wentThroughSubmitting && status == Success && after == EmptyForm
  {
    var form := new ContactFormState();
    form.HandleChange(Name, name);
    form.HandleChange(Email, email);
    form.HandleChange(Message, message);
    assert form.formData == FormData(name, email, message, "");
    var started := form.HandleSubmit();
    wentThroughSubmitting := started && form.status == Submitting && form.InputsDisabled();
    sent := form.FinishSubmission();
    status, after := form.status, form.formData;
  }

  /** A filled honeypot reports success at once: nothing starts, nothing is
      handed off and the typed values stay in the form. */
  method SubmitAsBot(name: string) returns (started: bool, status: Status, after: FormData)
    ensures !started && status == Success
    ensures after == FormData(name, "", "", "spam")
  {
    var form := new ContactFormState();
    form.HandleChange(Name, name);
    form.HandleChange(Honeypot, "spam");
    started := form.HandleSubmit();
    status, after := form.status, form.formData;
  }
}
