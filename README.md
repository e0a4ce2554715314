# job_mailer: a verified model of the outreach mailer

`job_mailer.py` sends a personalised application e-mail to each listed entry
of an HR list whose address is not yet in `sent_log.txt`, at most 20 per run.
The cap is per run of `main`, not per day. Each run does four things:

- It parses the list from `HRMail.txt`.
- It drops every address already recorded in `sent_log.txt`.
- It sends to the first 20 entries that remain. Each message greets the recipient by
  a name guessed from the address, or by "there".
- It records each outcome. A success appends the address to `sent_log.txt`.
  A failure appends `"<address> | <error>"` to `bounced_emails.txt`.

The project models that core in four Dafny modules:

- `PyStr` (`pystr.dfy`) models the Python string operations the program
  relies on: `strip()`, `strip(",")`, `split(sep)`, `replace`, `capitalize()`
  and `isalpha()`. It proves their characteristic properties: strip keeps
  exactly the infix between the dropped ends, and split and join are inverses.
- `Composer` (`composer.dfy`) models `extract_name` and the `"there"`
  fallback, the subject and body pools, and the message built for one
  recipient.
- `Selection` (`selection.dfy`) models the list comprehension that parses
  recipients, the sent set, the unsent filter and the slice of at most 20
  entries sent by one run.
- `Dispatch` (`dispatch.dfy`) holds class `Mailer`. Its two log files are
  `seq<string>` fields, one element per line with the newline left off.
  `SendEmail` models the logging branch of `send_email`. `SendBatch` models
  the send loop of `main`, proved by loop invariants against the
  specification functions `Delivered`, `Bounces` and `Outbox`. `Run` models
  `main` from parsing to the end of the loop.

The environment is passed in as parameters:

- `transport(k)` is the outcome of the k-th Gmail send of a run:
  `Success` or `Failure(text)`.
- `rng(k)` holds the two `random.choice` indices used for the k-th recipient.

## Model

| member | source | states |
|---|---|---|
| PyStr.StripWith | job_mailer.py:131 | `strip`/`strip(",")` leave neither end droppable, never lengthen the text, and give "" exactly when every character is droppable |
| PyStr.Strip | job_mailer.py:131 | `strip()` is StripWith over Python's whitespace set, so StripWith's contract and lemmas apply with `IsSpace` |
| PyStr.StripCommas | job_mailer.py:131 | `strip(",")` is StripWith over the comma alone, so StripWith's contract and lemmas apply with `IsComma` |
| PyStr.StripWithExactly | job_mailer.py:131 | the stripped result is exactly the infix between an all-dropped prefix and an all-dropped suffix |
| PyStr.StripWithIdempotent | job_mailer.py:131 | stripping a stripped string changes nothing |
| PyStr.Split | job_mailer.py:74-75 | `split(sep)` always yields at least one part and no part contains the separator |
| PyStr.JoinSplit | job_mailer.py:74-75 | joining the parts of a split with the separator gives the original text back |
| PyStr.SplitJoin | job_mailer.py:74-75 | splitting a join of separator-free parts gives the parts back |
| PyStr.Replace | job_mailer.py:75 | `replace("_", ".")` keeps the length and changes exactly the target characters |
| PyStr.Capitalize | job_mailer.py:77 | `capitalize()` keeps length, letters and letters' case-folded value; first letter upper-case, later letters lower-case, other characters unchanged |
| PyStr.IsAlpha | job_mailer.py:78 | `isalpha()`: non-empty and every character a letter (ASCII letters) |
| PyStr.CapitalizeWord | job_mailer.py:77 | capitalize of a lower-case word upper-cases exactly its first letter |
| Composer.ExtractName | job_mailer.py:73-80 | a found name is non-empty, all letters, upper-case first and lower-case after |
| Composer.FirstSegment | job_mailer.py:74-76 | reference definition: the longest prefix free of `@`, `.` and `_`, ended by one of them or by the end of the text |
| Composer.FirstPartIsFirstSegment | job_mailer.py:74-76 | `local_part.replace("_", ".").split(".")[0]` is that first segment |
| Composer.ExtractNameIsFirstSegment | job_mailer.py:73-80 | `extract_name` returns the capitalized first segment when it is non-empty and all letters, and None otherwise |
| Composer.ExtractNameMatchesSegment | job_mailer.py:73-80 | a found name equals the first segment up to case; an address starting with `@`, `.` or `_` yields None |
| Composer.ExtractNameJohn | job_mailer.py:73-80 | "john_doe@x.com" yields "John" |
| Composer.ExtractNameMary | job_mailer.py:73-80 | "mary.jane@x.com" yields "Mary" |
| Composer.ExtractNameShadow | job_mailer.py:73-80 | "42shadow@x.com" yields None |
| Composer.GreetingName | job_mailer.py:156 | the greeting is "there" exactly when `extract_name` finds no name; when it finds one, the greeting is that name (alphabetic, upper-case first letter) |
| Composer.Render | job_mailer.py:157 | `format(name=name)` puts the template's opening, then the name, then its closing, nothing else |
| Composer.Compose | job_mailer.py:157-159 | the message is from the fixed sender, to the recipient, with the chosen subject, and the body's name slot holds the greeting name |
| Selection.CleanLine | job_mailer.py:131 | `line.strip().strip(",")` has no comma at either end, and is empty exactly when the stripped line is all commas |
| Selection.ComprehensionMembers | job_mailer.py:131 | a list comprehension produces exactly the transformed kept elements |
| Selection.ComprehensionAppend | job_mailer.py:131 | a list comprehension over a concatenation is the concatenation of the comprehensions |
| Selection.HasText | job_mailer.py:131 | the comprehension's filter `if line.strip()`: the stripped line is non-empty |
| Selection.ParseRecipients | job_mailer.py:131 | at most one address per line |
| Selection.ParseRecipientsMembers | job_mailer.py:131 | an address is parsed exactly when some non-blank line cleans to it |
| Selection.ParseRecipientsAppend | job_mailer.py:131 | parsing works line by line, in file order |
| Selection.ParseOne | job_mailer.py:131 | a single line gives nothing when blank, else its cleaned address |
| Selection.CommaLineIsEmptyAddress | job_mailer.py:131 | a line of only commas passes the blank test and yields the empty address |
| Selection.ParseCleanLines | job_mailer.py:131 | lines with no whitespace or comma at either end are taken unchanged |
| Selection.SentSet | job_mailer.py:137 | `set(line.strip() for line in f)`: its members are given by SentSetMembers |
| Selection.SentSetMembers | job_mailer.py:137 | an address is in the sent set exactly when some log line strips to it |
| Selection.SentSetSingle | job_mailer.py:134-137 | a sent log of one line gives the set holding that line stripped |
| Selection.SentSetAppend | job_mailer.py:134-137 | appending to the log adds exactly the stripped new lines to the set |
| Selection.Unsent | job_mailer.py:140 | the filter never lengthens the list |
| Selection.UnsentCount | job_mailer.py:140 | each address not in the sent set is kept as often as it is listed; addresses in the set are dropped |
| Selection.UnsentNotSent | job_mailer.py:140 | a kept address is listed and not in the sent set |
| Selection.UnsentAppend | job_mailer.py:140 | the filter keeps list order |
| Selection.UnsentNothingSent | job_mailer.py:140 | with nothing sent the list comes back unchanged, duplicates included |
| Selection.TodayBatch | job_mailer.py:143-144 | the batch is the first `min(len, 20)` unsent addresses |
| Selection.SelectBatch | job_mailer.py:131-144 | the batch is the first `min(n, 20)` of the filtered parse of the list |
| Selection.SelectedAreUnsent | job_mailer.py:131-144 | every batch address came from a non-blank line and is not in the sent set |
| Selection.SelectCleanNothingSent | job_mailer.py:131-144 | with an empty sent log, at most 20 clean lines are selected unchanged and in order |
| Selection.DuplicatesKept | job_mailer.py:135-140 | `[a, b, a]` with an empty sent log is selected as `[a, b, a]` |
| Selection.CleanLineKeepsHiddenSpace | job_mailer.py:131 | "address ," is cleaned to "address ": the space the comma hid stays |
| Selection.StripTrailingSpace | job_mailer.py:137 | the logged line "address " is read back as "address" |
| Selection.HiddenWhitespaceIsReselected | job_mailer.py:131-144 | an address parsed with a trailing space never matches its own stripped log line, so it is selected again after being delivered |
| Dispatch.BounceLine | job_mailer.py:68-69 | the bounce line is the address, then " \| ", then the error text |
| Dispatch.Delivered | job_mailer.py:160-163 | the addresses logged as sent are at most the batch |
| Dispatch.Bounces | job_mailer.py:59-70 | every send is either delivered or bounced: the two counts add up to the batch size |
| Dispatch.DeliveredMembers | job_mailer.py:160-163 | an address is logged as sent exactly when one of its sends succeeded |
| Dispatch.BouncesMembers | job_mailer.py:62-70 | a bounce line is logged exactly for a failed send, with that send's address and error text |
| Dispatch.AllDelivered | job_mailer.py:160-165 | when every send succeeds the whole batch is logged as sent and nothing bounces |
| Dispatch.Mailer.constructor | job_mailer.py:84-124 | the subject and body pools are the six subjects and three templates of `main`; the logs start as given |
| Dispatch.Mailer.MessageFor | job_mailer.py:153-159 | the message for one recipient is from the fixed sender, to that recipient, with the picked subject; its body is the picked template rendered with the greeting name (Compose) |
| Dispatch.Mailer.Outbox | job_mailer.py:148-159 | one message per batch address, the k-th composed for the k-th address with the k-th picks |
| Dispatch.Mailer.SendEmail | job_mailer.py:58-70 | returns true exactly on success; a failure appends one bounce line; the sent log is untouched |
| Dispatch.Mailer.SendBatch | job_mailer.py:148-168 | sends `min(len, 20)` messages in batch order; the sent log grows by exactly the delivered addresses and the bounce log by exactly the failures' lines, in order; the k-th message is the one composed for the k-th address |
| Dispatch.Mailer.Run | job_mailer.py:129-168 | the batch is the selection from the list and the sent log read once at the start; every batch entry (position) is tried exactly once (the early stop is never taken) and the logs grow as in SendBatch |
| Dispatch.DeliveredNeverReselected | job_mailer.py:135-163 | an address without surrounding whitespace that was delivered is never selected again while the sent log is only appended to |
| Dispatch.UndeliveredStaysEligible | job_mailer.py:135-140 | a listed unsent address that no delivery of the run strips to stays eligible for the next run |

## Left out

- OAuth and token handling (`get_gmail_service`): an external library plus
  file I/O.
- MIME construction, reading the attachment and base64 encoding
  (`create_message_with_attachment`). A message is modelled by its sender,
  recipient, subject and body text.
- The Gmail API call: it is the oracle `transport`. An exception becomes
  `Failure(text)`, with the text that `str(e)` would give.
- An exception outside the Gmail call (reading the attachment, appending to
  either log) ends the source's run early; the model's `SendBatch`/`Run`
  always finish the batch.
- `random.choice`: the picks are the oracle `rng`, whose indices are required
  to lie in the pools (`ValidPicks`). `random.randint` and `time.sleep` only
  affect timing and are not modelled.
- `print` output is not modelled.
- File mechanics. Each file is its sequence of lines, without newlines. A
  missing `sent_log.txt` reads as the empty sequence. Two further effects of
  real files are not modelled: a last line without a newline would run into
  the next appended address, and an error text containing a newline would
  split a bounce line.
- `str.format`: a template is modelled as the text before and after its single
  `{name}` slot (`Composer.Template`, `Composer.Render`).
- Unicode case: letters and case mapping cover ASCII only. A first segment
  with a non-ASCII letter therefore yields None, where Python would accept it.
  `strip()` removes Python's full whitespace set.
- The code has none of the following, and neither does the model:
  - removal of duplicate list entries, so `[a, b, a]` selects `a` twice;
  - send waves, or a cooldown between them;
  - classification of bounces as permanent or retryable;
  - retries of a failed send.
- `extract_name` takes the first segment even when it is empty (not the first
  non-empty one), and the model does the same.
- Dispatch.Delivered: its own contract bounds only the length. Membership
  is stated by `Dispatch.DeliveredMembers`, and the exact content by
  `SendBatch` together with the function itself.
