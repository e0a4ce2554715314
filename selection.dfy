/**
 * Choosing today's recipients: the address list parsed from the lines of
 * HRMail.txt, the set of addresses already in sent_log.txt, the unsent
 * addresses in list order (duplicates kept), and the first DAILY_LIMIT of them.
 */
module Selection {
  import opened PyStr

  /** `daily_limit` */
  const DAILY_LIMIT: nat := 20

  function Min(a: nat, b: nat): nat {
    if a <= b then a else b
  }

  /** `[f(x) for x in xs if keep(x)]`: the kept elements, transformed, in order. */
  function Comprehension<T, U>(xs: seq<T>, keep: T -> bool, f: T -> U): (ys: seq<U>)
    ensures |ys| <= |xs|
  {
    if xs == [] then []
    else (if keep(xs[0]) then [f(xs[0])] else []) + Comprehension(xs[1..], keep, f)
  }

  /** An element is produced exactly when some kept element is transformed into it. */
  lemma {:induction false} ComprehensionMembers<T, U>(xs: seq<T>, keep: T -> bool, f: T -> U, y: U)
    ensures y in Comprehension(xs, keep, f) <==> exists x :: x in xs && keep(x) && f(x) == y
  {
    if xs != [] {
      ComprehensionMembers(xs[1..], keep, f, y);
      assert forall x :: x in xs <==> x == xs[0] || x in xs[1..];
    }
  }

  /** Sequence concatenation is associative. */
  lemma AppendAssoc<T>(a: seq<T>, b: seq<T>, c: seq<T>)
    ensures (a + b) + c == a + (b + c)
  {
  }

  /** A comprehension works element by element: over a concatenation it concatenates. */
  lemma {:induction false} ComprehensionAppend<T, U>(a: seq<T>, b: seq<T>, keep: T -> bool, f: T -> U)
    ensures Comprehension(a + b, keep, f) == Comprehension(a, keep, f) + Comprehension(b, keep, f)
  {
    if a == [] {
      assert a + b == b;
    } else {
      var head := if keep(a[0]) then [f(a[0])] else [];
      assert (a + b)[0] == a[0] && (a + b)[1..] == a[1..] + b;
      assert Comprehension(a + b, keep, f) == head + Comprehension(a[1..] + b, keep, f);
      ComprehensionAppend(a[1..], b, keep, f);
      AppendAssoc(head, Comprehension(a[1..], keep, f), Comprehension(b, keep, f));
    }
  }

  /** The filter of the comprehension, `if line.strip()`: the stripped line is non-empty. */
  predicate HasText(line: string) {
    Strip(line) != []
  }

  /**
   * `line.strip().strip(",")`: surrounding whitespace removed, then commas at
   * both ends. Whitespace that the commas were hiding stays.
   */
  function CleanLine(line: string): (email: string)
    ensures |email| <= |line|
    ensures email != [] ==> email[0] != ',' && email[|email| - 1] != ','
    ensures var stripped := Strip(line);
      email == [] <==> forall k :: 0 <= k < |stripped| ==> IsComma(stripped[k])
  {
    StripCommas(Strip(line))
  }

  /**
   * `[line.strip().strip(",") for line in f if line.strip()]`: one address
   * for each non-blank line, in file order.
   */
  function ParseRecipients(lines: seq<string>): (emails: seq<string>)
    ensures |emails| <= |lines|
  {
    Comprehension(lines, HasText, CleanLine)
  }

  /** An address is parsed exactly when some non-blank line cleans to it. */
  lemma ParseRecipientsMembers(lines: seq<string>, e: string)
    ensures e in ParseRecipients(lines) <==> exists l :: l in lines && HasText(l) && CleanLine(l) == e
  {
    ComprehensionMembers(lines, HasText, CleanLine, e);
  }

  /** Parsing goes line by line: the file's parts are parsed independently and in order. */
  lemma ParseRecipientsAppend(a: seq<string>, b: seq<string>)
    ensures ParseRecipients(a + b) == ParseRecipients(a) + ParseRecipients(b)
  {
    ComprehensionAppend(a, b, HasText, CleanLine);
  }

  /** A single line parses to its cleaned address, or to nothing when it is blank. */
  lemma ParseOne(line: string)
    ensures ParseRecipients([line]) == if !HasText(line) then [] else [CleanLine(line)]
  {
    assert [line][1..] == [];
  }

  /**
   * A line holding only commas (and surrounding whitespace) passes the blank
   * test and yields the empty address.
   */
  lemma CommaLineIsEmptyAddress(line: string)
    requires Strip(line) != []
    requires forall k :: 0 <= k < |Strip(line)| ==> IsComma(Strip(line)[k])
    ensures ParseRecipients([line]) == [""]
  {
    ParseOne(line);
  }

  /** A line with no whitespace or comma at either end is taken as it is. */
  predicate IsCleanLine(line: string) {
    line != [] && !IsSpace(line[0]) && !IsSpace(line[|line| - 1]) &&
    line[0] != ',' && line[|line| - 1] != ','
  }

  lemma {:induction false} ParseCleanLines(lines: seq<string>)
    requires forall i :: 0 <= i < |lines| ==> IsCleanLine(lines[i])
    ensures ParseRecipients(lines) == lines
  {
    if lines != [] {
      var line := lines[0];
      StripWithExactly(line, IsSpace, 0, |line|);
      assert Strip(line) == line;
      StripWithExactly(line, IsComma, 0, |line|);
      assert CleanLine(line) == line;
      ParseCleanLines(lines[1..]);
      assert ParseRecipients(lines) == [line] + ParseRecipients(lines[1..]);
      assert lines == [line] + lines[1..];
    }
  }

  /**
   * `set(line.strip() for line in f)` over the lines of sent_log.txt; a
   * missing file reads as no lines. Blank lines contribute the empty string.
   */
  function SentSet(log: seq<string>): (sent: set<string>)
  {
    set l | l in log :: Strip(l)
  }

  /** An address is in the sent set exactly when some log line strips to it. */
  lemma SentSetMembers(log: seq<string>, e: string)
    ensures e in SentSet(log) <==> exists l :: l in log && Strip(l) == e
  {
  }

  /** Appending to the log adds the stripped new lines to the set and removes nothing. */
  lemma SentSetAppend(log: seq<string>, more: seq<string>)
    ensures SentSet(log + more) == SentSet(log) + SentSet(more)
  {
    assert forall l :: l in log + more <==> l in log || l in more;
  }

  /**
   * `[e for e in emails if e not in sent_emails]`: every address that is not
   * in the sent set, as often as it occurs in the list, and nothing else.
   */
  function Unsent(emails: seq<string>, sent: set<string>): (unsent: seq<string>)
    ensures |unsent| <= |emails|
  {
    if emails == [] then []
    else (if emails[0] in sent then [] else [emails[0]]) + Unsent(emails[1..], sent)
  }

  /** The filter keeps each address not in the sent set as often as it is listed, and drops the rest. */
  lemma {:induction false} UnsentCount(emails: seq<string>, sent: set<string>, e: string)
    ensures multiset(Unsent(emails, sent))[e] == if e in sent then 0 else multiset(emails)[e]
  {
    if emails != [] {
      var head := if emails[0] in sent then [] else [emails[0]];
      UnsentCount(emails[1..], sent, e);
      assert multiset(Unsent(emails, sent)) == multiset(head) + multiset(Unsent(emails[1..], sent));
      assert multiset(emails) == multiset([emails[0]]) + multiset(emails[1..]) by {
        assert emails == [emails[0]] + emails[1..];
      }
    }
  }

  lemma UnsentNotSent(emails: seq<string>, sent: set<string>, e: string)
    requires e in Unsent(emails, sent)
    ensures e !in sent && e in emails
  {
    UnsentCount(emails, sent, e);
    assert multiset(Unsent(emails, sent))[e] > 0;
  }

  /** The filter keeps list order: it works on each part of the list separately. */
  lemma {:induction false} UnsentAppend(a: seq<string>, b: seq<string>, sent: set<string>)
    ensures Unsent(a + b, sent) == Unsent(a, sent) + Unsent(b, sent)
  {
    if a == [] {
      assert a + b == b;
    } else {
      assert (a + b)[1..] == a[1..] + b;
      UnsentAppend(a[1..], b, sent);
    }
  }

  /** With nothing sent, the list comes back unchanged: duplicates are not removed. */
  lemma {:induction false} UnsentNothingSent(emails: seq<string>)
    ensures Unsent(emails, {}) == emails
  {
    if emails != [] {
      UnsentNothingSent(emails[1..]);
    }
  }

  /** `unsent_emails[:daily_limit]` */
  function TodayBatch(unsent: seq<string>): (batch: seq<string>)
    ensures |batch| == Min(|unsent|, DAILY_LIMIT)
    ensures batch == unsent[..|batch|]
  {
    if |unsent| <= DAILY_LIMIT then unsent else unsent[..DAILY_LIMIT]
  }

  /**
   * The batch one run works through: the first DAILY_LIMIT parsed addresses
   * that are not in the sent set read at the start of the run.
   */
  function SelectBatch(lines: seq<string>, log: seq<string>): (batch: seq<string>)
    ensures |batch| == Min(|Unsent(ParseRecipients(lines), SentSet(log))|, DAILY_LIMIT)
    ensures batch == Unsent(ParseRecipients(lines), SentSet(log))[..|batch|]
  {
    TodayBatch(Unsent(ParseRecipients(lines), SentSet(log)))
  }

  /**
   * Every address in the batch came from a non-blank line of the list, and
   * none of them is in the sent set.
   */
  lemma SelectedAreUnsent(lines: seq<string>, log: seq<string>, e: string)
    requires e in SelectBatch(lines, log)
    ensures e !in SentSet(log)
    ensures exists l :: l in lines && HasText(l) && CleanLine(l) == e
  {
    var unsent := Unsent(ParseRecipients(lines), SentSet(log));
    assert e in unsent;
    UnsentNotSent(ParseRecipients(lines), SentSet(log), e);
    ParseRecipientsMembers(lines, e);
  }

  /** `[a, b, a]` with an empty sent log is selected as it is: the batch keeps duplicates. */
  lemma DuplicatesKept()
    ensures SelectBatch(["a@x.com", "b@x.com", "a@x.com"], []) == ["a@x.com", "b@x.com", "a@x.com"]
  {
    var lines := ["a@x.com", "b@x.com", "a@x.com"];
    assert IsCleanLine(lines[0]) && IsCleanLine(lines[1]);
    SelectCleanNothingSent(lines);
  }

  /** A short list of clean addresses with an empty sent log is selected unchanged, in order. */
  lemma SelectCleanNothingSent(lines: seq<string>)
    requires |lines| <= DAILY_LIMIT
    requires forall i :: 0 <= i < |lines| ==> IsCleanLine(lines[i])
    ensures SelectBatch(lines, []) == lines
  {
    ParseCleanLines(lines);
    assert SentSet([]) == {};
    UnsentNothingSent(lines);
  }

  /** "<address> ," cleans to "<address> ": the space the comma was hiding stays. */
  lemma CleanLineKeepsHiddenSpace(email: string)
    requires IsCleanLine(email)
    ensures Strip(email + " ,") == email + " ,"
    ensures CleanLine(email + " ,") == email + " "
  {
    var line := email + " ,";
    assert line[0] == email[0] && line[|line| - 1] == ',' && line[|line| - 2] == ' ';
    StripWithExactly(line, IsSpace, 0, |line|);
    StripWithExactly(line, IsComma, 0, |line| - 1);
    assert line[..|line| - 1] == email + " ";
  }

  /** The log line "<address> " strips to the address itself. */
  lemma StripTrailingSpace(email: string)
    requires IsCleanLine(email)
    ensures Strip(email + " ") == email
  {
    var spaced := email + " ";
    assert spaced[0] == email[0] && spaced[|email| - 1] == email[|email| - 1];
    StripWithExactly(spaced, IsSpace, 0, |email|);
    assert spaced[..|email|] == email;
  }

  /**
   * Whitespace the commas were hiding survives parsing: "hr@x.com ," becomes
   * "hr@x.com ", whose stripped log line "hr@x.com" does not match it, so
   * that address is selected again after it was delivered.
   */
  lemma HiddenWhitespaceIsReselected(email: string)
    requires IsCleanLine(email)
    ensures ParseRecipients([email + " ,"]) == [email + " "]
    ensures SentSet([email + " "]) == {email}
    ensures SelectBatch([email + " ,"], [email + " "]) == [email + " "]
  {
    var spaced := email + " ";
    HiddenSpaceParsed(email);
    StripTrailingSpace(email);
    SentSetSingle(spaced);
    assert |spaced| != |email|;
    UnsentOfOther(spaced, email);
  }

  /** A log of one line gives the set of that line stripped. */
  lemma SentSetSingle(l: string)
    ensures SentSet([l]) == {Strip(l)}
  {
    assert forall x :: x in [l] <==> x == l;
  }

  /** The list line "<address> ," parses to the single address "<address> ". */
  lemma HiddenSpaceParsed(email: string)
    requires IsCleanLine(email)
    ensures ParseRecipients([email + " ,"]) == [email + " "]
  {
    CleanLineKeepsHiddenSpace(email);
    ParseOne(email + " ,");
  }

  /** An address other than the one sent address passes the filter. */
  lemma UnsentOfOther(e: string, other: string)
    requires e != other
    ensures Unsent([e], {other}) == [e]
  {
    assert [e][1..] == [];
  }
}
