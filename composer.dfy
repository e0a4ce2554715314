/**
 * Personalising one message: the name guessed from the address
 * (`extract_name` and its "there" fallback), the fixed subject and body
 * pools, and the message that is handed to the mail transport.
 */
module Composer {
  import opened PyStr

  datatype Option<T> = None | Some(value: T)

  /**
   * `extract_name(email)`: the first `.`- or `_`-separated segment of the text
   * before the first `@`, capitalized, or None when that is not all letters.
   * `split` always yields at least one part, so the source's `if parts` test
   * always passes and only the `isalpha` test can reject.
   */
  function ExtractName(email: string): (name: Option<string>)
    ensures name.Some? ==> IsAlpha(name.value) && IsUpper(name.value[0])
    ensures name.Some? ==> forall i :: 1 <= i < |name.value| ==> IsLower(name.value[i])
  {
    var localPart := Split(email, '@')[0];
    var parts := Split(Replace(localPart, '_', '.'), '.');
    var capitalized := Capitalize(parts[0]);
    if IsAlpha(capitalized) then Some(capitalized) else None
  }

  /** The characters that end the first segment: the `@` split, and `.` and `_` (which became `.`). */
  predicate IsSeparator(c: char) {
    c == '@' || c == '.' || c == '_'
  }

  /** Reference definition: the characters of `email` before the first '@', '.' or '_'. */
  function FirstSegment(email: string): (segment: string)
    ensures |segment| <= |email| && segment == email[..|segment|]
    ensures forall i :: 0 <= i < |segment| ==> !IsSeparator(segment[i])
    ensures |segment| < |email| ==> IsSeparator(email[|segment|])
  {
    if email == [] || IsSeparator(email[0]) then []
    else
      assert email == [email[0]] + email[1..];
      [email[0]] + FirstSegment(email[1..])
  }

  /** The first segment is the prefix that ends just before the first separator. */
  lemma FirstSegmentEndsAt(email: string, k: nat)
    requires k <= |email|
    requires forall i :: 0 <= i < k ==> !IsSeparator(email[i])
    requires k < |email| ==> IsSeparator(email[k])
    ensures FirstSegment(email) == email[..k]
  {
    var segment := FirstSegment(email);
    if |segment| < |email| {
      assert IsSeparator(email[|segment|]);
    }
  }

  /** The first part of the local part, after `_` became `.`, is the first segment. */
  lemma {:induction false} FirstPartIsFirstSegment(email: string)
    ensures Split(Replace(Split(email, '@')[0], '_', '.'), '.')[0] == FirstSegment(email)
  {
    if email != [] && email[0] != '@' {
      var c := email[0];
      var local := Split(email[1..], '@')[0];
      assert Split(email, '@')[0] == [c] + local;
      var replaced := Replace([c] + local, '_', '.');
      assert replaced[1..] == Replace(local, '_', '.');
      FirstPartIsFirstSegment(email[1..]);
    }
  }

  /**
   * ExtractName accepts exactly the addresses whose first segment is
   * non-empty and all letters, and then returns that segment capitalized.
   */
  lemma ExtractNameIsFirstSegment(email: string)
    ensures ExtractName(email) ==
      if IsAlpha(FirstSegment(email)) then Some(Capitalize(FirstSegment(email))) else None
  {
    FirstPartIsFirstSegment(email);
  }

  /**
   * A name found is the first segment up to case; an address whose local part
   * starts with `.`, `_` or `@` (an empty first segment) has no name.
   */
  lemma ExtractNameMatchesSegment(email: string)
    ensures ExtractName(email).Some? ==>
      Lower(ExtractName(email).value) == Lower(FirstSegment(email))
    ensures email != [] && IsSeparator(email[0]) ==> ExtractName(email) == None
  {
    ExtractNameIsFirstSegment(email);
  }

  /**
   * ExtractName of an address whose first segment is the lower-case word
   * `email[..k]`: that word with its first letter made upper-case.
   */
  lemma ExtractNameOfLowerWord(email: string, k: nat, expected: string)
    requires 0 < k <= |email| && |expected| == k
    requires k < |email| ==> IsSeparator(email[k])
    requires IsLower(email[0]) && IsUpper(expected[0]) && expected[0] as int == email[0] as int - 32
    requires forall i :: 1 <= i < k ==> IsLower(email[i]) && expected[i] == email[i]
    ensures ExtractName(email) == Some(expected)
  {
    FirstSegmentEndsAt(email, k);
    ExtractNameIsFirstSegment(email);
    CapitalizeWord(email[..k], expected);
  }

  /** Worked example: an underscore ends the first segment, "john_doe@x.com" greets John. */
  lemma ExtractNameJohn()
    ensures ExtractName("john_doe@x.com") == Some("John")
  {
    ExtractNameOfLowerWord("john_doe@x.com", 4, "John");
  }

  /** Worked example: a dot ends the first segment, "mary.jane@x.com" greets Mary. */
  lemma ExtractNameMary()
    ensures ExtractName("mary.jane@x.com") == Some("Mary")
  {
    ExtractNameOfLowerWord("mary.jane@x.com", 4, "Mary");
  }

  /** Worked example: a digit in the first segment, "42shadow@x.com" has no name. */
  lemma ExtractNameShadow()
    ensures ExtractName("42shadow@x.com") == None
  {
    var email := "42shadow@x.com";
    ExtractNameIsFirstSegment(email);
    var segment := FirstSegment(email);
    assert segment != [] ==> segment[0] == '4';
  }

  /**
   * `extract_name(email) or "there"`: the extracted name, else the literal
   * fallback. A found name starts with an upper-case letter, so the fallback
   * is used exactly when no name was found.
   */
  function GreetingName(email: string): (name: string)
    ensures name == "there" <==> ExtractName(email) == None
    ensures ExtractName(email).Some? ==> name == ExtractName(email).value
    ensures name != "there" ==> IsAlpha(name) && IsUpper(name[0])
  {
    match ExtractName(email)
    case Some(n) => n
    case None => "there"
  }

  /** A body template: the text around its single `{name}` slot. */
  datatype Template = Template(opening: string, closing: string)

  /** `template.format(name=name)`: the opening, the name in the slot, then the closing. */
  function Render(template: Template, name: string): (body: string)
    ensures |body| == |template.opening| + |name| + |template.closing|
    ensures body[..|template.opening|] == template.opening
    ensures body[|template.opening|..|template.opening| + |name|] == name
    ensures body[|template.opening| + |name|..] == template.closing
  {
    template.opening + name + template.closing
  }

  const SENDER: string := "your_email@gmail.com"

  const SUBJECTS: seq<string> := [
    "Application for Cloud Fresher Role",
    "Cloud Fresher Job Application",
    "Seeking Opportunities as Cloud Fresher",
    "Entry-Level Cloud Computing Job Inquiry",
    "Cloud Fresher Position \U{2013} Application",
    "Fresher Cloud Role | Job Application"
  ]

  /** The `bodies` pool, each template with its one `{name}` slot. */
  const BODIES: seq<Template> := [
    Template("Hello ",
      ",\n\nI am writing to express my interest in Cloud Computing opportunities at your organization. \n"
      + "As a fresher with strong fundamentals in cloud and related technologies, I am eager to contribute and grow.\n\n"
      + "Looking forward to your guidance.\n\nBest regards,  \nNitish\n"),
    Template("Dear ",
      ",\n\nI hope you are doing well. I am seeking entry-level opportunities in Cloud Computing. \n"
      + "With my educational background and training, I am confident in my ability to learn quickly and add value.\n\n"
      + "Sincerely,  \nNitish\n"),
    Template("Hi ",
      ",\n\nThis is Nitish, reaching out regarding potential openings for fresher roles in Cloud Computing. \n"
      + "I am enthusiastic about building my career in this domain and would be glad to connect.\n\n"
      + "Thanks & Regards,  \nNitish\n")
  ]

  /** The two `random.choice` results for one recipient, as indices into the pools. */
  datatype Pick = Pick(subject: nat, body: nat)

  /** What `create_message_with_attachment` is given; the MIME encoding is not modelled. */
  datatype Message = Message(sender: string, to: string, subject: string, body: string)

  /**
   * The message for one recipient: from the sender, addressed to the
   * recipient, with the chosen subject, and a body whose name slot holds
   * GreetingName(email).
   */
  function Compose(email: string, subject: string, template: Template): (msg: Message)
    ensures msg.sender == SENDER && msg.to == email && msg.subject == subject
    ensures var slot := |template.opening|;
      slot + |GreetingName(email)| <= |msg.body| &&
      msg.body[slot..slot + |GreetingName(email)|] == GreetingName(email)
  {
    var body := Render(template, GreetingName(email));
    assert body == template.opening + GreetingName(email) + template.closing;
    Message(SENDER, email, subject, body)
  }
}
