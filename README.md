# Undercover: the CIA notification formatter

Undercover is a small Ruby agent. It turns a GitHub push event into one XML
notification document per commit and sends each document to the CIA
aggregation service (`cia.vc`) through the XML-RPC procedure `hub.deliver`.
This project models the part of class `Cia` that builds the documents, plus an
abstract model of the sending loop:

- `Escaping`: the `h` helper, Ruby's `CGI.escapeHTML`, character by character.
  The `Dialect` chooses between `WithoutApostrophe` (Ruby up to 1.9, which
  rewrites `& < > "`) and `WithApostrophe` (Ruby 2.0 and later, which also
  rewrite `'` as `&#39;`). The module also holds the entity decoding an XML
  reader applies to character data (`Unescape`).
- `Refs`: `ref.split('/').last`, with Ruby's `split`, which drops trailing empty
  fields. `None` stands for `nil`, and `h(nil)` is the empty text.
- `Decimal`: `Integer#to_s` in base 10, used for the timestamp, and reading it back.
- `Notification`: `commit_messages`. It fills the template byte for byte, line
  breaks and indentation included. It also has `Parse`, a reader for documents
  of that shape, which stands in for the element lookups of the tests.
- `Dispatch`: `send_commit_messages!`. The transport's answers are parameters.
- `Sample`: the sample push event of the file and what its tests expect.

## Model

| member | source | states |
|---|---|---|
| Escaping.EscapeChar | undercover.rb:50-51 | a character is rewritten exactly when it is in the dialect's escaped set, and a rewritten character becomes a text longer than one character that starts with `&` |
| Escaping.EscapeNoRawMarkup | undercover.rb:50-51 | escaped text holds no raw `<`, `>` or `"`, and in the `WithApostrophe` dialect no raw `'` either |
| Escaping.EscapeAmpersands | undercover.rb:50-51 | every `&` in escaped text begins one of the entity strings that dialect's escaper emits (`&#39;` only in the `WithApostrophe` dialect) |
| Escaping.EscapeConcat | undercover.rb:50-51 | escaping distributes over concatenation |
| Escaping.UnescapeEscapeThen | undercover.rb:50-51 | decoding escaped text followed by any text `t` gives the original text followed by the decoding of `t` |
| Escaping.UnescapeEscape | undercover.rb:50-51 | round trip: decoding the entities in `h(s)` gives `s` back |
| Escaping.EscapeInjective | undercover.rb:50-51 | two different texts never escape to the same text |
| Escaping.EscapeFixedPoint | undercover.rb:50-51 | `h(s) == s` exactly when `s` has no escaped character; otherwise `h(s)` is strictly longer than `s` |
| Escaping.DialectsAgree | undercover.rb:50-51 | on text without an apostrophe, the two dialects' escapers give the same result |
| Decimal.NaturalText | undercover.rb:34 | the decimal text of a natural number is non-empty, all digits, and has no leading zero |
| Decimal.IntegerText | undercover.rb:34 | `to_s` of an integer starts with `-` exactly when the integer is negative, and every other character is a digit |
| Decimal.IntegerTextRoundTrip | undercover.rb:34 | the rendered timestamp reads back as the same number of seconds |
| Refs.AllFields | undercover.rb:32 | splitting at every `/` gives at least one field, and no field holds a `/` |
| Refs.JoinAllFields | undercover.rb:32 | joining the fields with `/` gives back the text that was split |
| Refs.DropTrailingEmpty | undercover.rb:32 | `split` keeps a prefix of the fields that is empty or ends in a non-empty field, and drops only empty fields |
| Refs.SplitTrailingSlash | undercover.rb:32 | a `/` at the end of a text does not change the result of `split` |
| Refs.SplitNoTrailingSlash | undercover.rb:32 | when a text does not end in `/`, `split` keeps every field, and the last field is the non-empty text after the last `/` |
| Refs.LastSegmentAfterLastSlash | undercover.rb:32 | `split('/').last` equals an independent definition: strip the trailing slashes, then take what follows the last slash; `nil` when nothing is left |
| Refs.AfterLastSlashUnique | undercover.rb:32 | a slash-free suffix that starts the text or follows a slash is the text after the last slash |
| Refs.TrimTrailingSlashesUnique | undercover.rb:32 | a prefix that is empty or ends in a non-slash, followed only by slashes, is the text without its trailing slashes |
| Refs.LastSegmentNone | undercover.rb:32 | `last` is `nil` exactly for a ref made only of slashes, the empty ref included |
| Refs.LastSegmentSome | undercover.rb:32 | otherwise the branch is a non-empty, slash-free part of the ref, preceded by the start of the ref or a slash, and followed only by slashes |
| Refs.LastSegmentOfPath | undercover.rb:32 | a ref ending in a slash and then a non-empty, slash-free segment gives that segment |
| Refs.LastSegmentOfBareName | undercover.rb:32 | a non-empty ref without a slash gives the whole ref |
| Refs.LastSegmentTrailingSlash | undercover.rb:32 | slashes at the end of a ref are ignored |
| Refs.LastSegmentOfBranchRef | undercover.rb:117 | `"refs/heads/master"` gives `"master"` |
| Refs.LastSegmentOfDirectoryRef | undercover.rb:32 | `"refs/heads/"` gives `"heads"` |
| Refs.LastSegmentOfEmptyRef | undercover.rb:32 | the empty ref gives `nil` |
| Notification.CommitMessages | undercover.rb:22-46 | one document per commit, and the i-th document is made from the i-th (hash, commit) pair |
| Notification.CommitMessageOpening | undercover.rb:24-30 | every document opens with the same root element attributes, generator name and version, whatever the input |
| Notification.ReadText | undercover.rb:144-146 | reading character data splits the text exactly, at the first `<` |
| Notification.ParseRender | undercover.rb:24-44 | a document filled with texts that hold no `<` reads back as exactly those texts |
| Notification.ParseSound | undercover.rb:24-44 | a document that reads back is the template filled with the texts it reads back as, and none of those texts holds a `<` |
| Notification.EscapeIntegerText | undercover.rb:34 | escaping leaves the decimal timestamp unchanged |
| Notification.AuthorRoundTrip | undercover.rb:37 | the author text `h(name) + " (" + h(email) + ")"` decodes to `name (email)`; the space and the parentheses are copied as they are |
| Notification.CommitTextsNoLt | undercover.rb:31-40 | none of the seven substituted texts holds a `<` |
| Notification.CommitMessageReadsBack | undercover.rb:24-44 | each document reads back as the escaped repository name, the escaped last segment of the ref, the decimal timestamp, the escaped author text, and the escaped hash, message and url |
| Notification.CommitMessageDescribes | undercover.rb:31-40 | decoding what a document reads back as gives the commit's data: repository name, branch, timestamp, "name (email)", hash, message and url |
| Notification.CommitMessagesDescribeCommits | undercover.rb:22-46 | every document reads back, and the i-th one describes the i-th (hash, commit) pair |
| Dispatch.FirstFailure | undercover.rb:16 | the index of the first call that does not complete; every call before it completes |
| Dispatch.SendDocuments | undercover.rb:14-20 | building the client, then one `hub.deliver` call per document in order, stopping at the first call that fails, has the requests and outcome that `Deliver` defines |
| Dispatch.SendCommitMessages | undercover.rb:14-20 | `send_commit_messages!` sends the documents of `commit_messages`, with the requests and outcome that `Deliver` defines |
| Dispatch.DeliverAllSent | undercover.rb:14-20 | when every request completes, the client is built, each document is sent once and in order, and the method returns |
| Dispatch.DeliverConnectFault | undercover.rb:14-20 | a fault while building the client is swallowed, and nothing is sent |
| Dispatch.DeliverStopsAtFault | undercover.rb:14-20 | a fault on the call for document `k` is swallowed, and the documents after it are not sent |
| Dispatch.DeliverSendsPrefix | undercover.rb:14-20 | whatever the transport does, the client is built first, then a prefix of the documents is sent, each once and in order |
| Dispatch.DeliverRaises | undercover.rb:14-20 | an error escapes exactly when the first request that does not complete fails with something other than an XML-RPC fault |
| Sample.DescribedSampleCommit | undercover.rb:116-125 | texts that describe a sample commit meet every assertion of the test |
| Sample.SampleDocument | undercover.rb:112-127 | a document made for a commit by Eloy Duran, pushed to `master` of `undercover`, meets the test's assertions |
| Sample.SampleMessages | undercover.rb:107-110 | the sample event gives two documents, one per commit, in order |
| Sample.SampleMessagesMeetTests | undercover.rb:112-127 | both sample documents read back and meet the test's assertions, the author reading "Eloy Duran (e.duran@superalloy.nl)" |
| Sample.SampleLogUnescaped | undercover.rb:75 | the first message, "duck for cover", escapes to itself |

## Left out

- Network I/O: the XML-RPC client and `server.call` are not modelled. `Dispatch` takes the transport's answer to each request as a parameter (`Reply`) and records the requests made.
- A fault on one call ends `send_commit_messages!`. The `rescue` at undercover.rb:17 wraps the whole method, so the remaining documents are not sent. The model follows the code, not a per-message retry.
- `Time#to_i` (undercover.rb:34) is not modelled. The timestamp is given as whole seconds, already truncated.
- Missing hash keys, and `nil` values other than the branch, are not modelled. Every field is given as a text. `to_s` inside `h` is the identity on texts; for the timestamp it is `Decimal.IntegerText`.
- `Notification.Parse` is not a general XML parser. It reads only documents of the template's exact shape, and it plays the role of the tests' element lookups. It does not model insignificant whitespace, XML well-formedness, or schema validation.
- `Escaping.Unescape` decodes only the five predefined entities and `&#39;`. It does not decode other numeric character references.
- The push event's `:before`, `:after` and repository `url` and `owner` fields (undercover.rb:59-66, 88) are not modelled, because the formatter never reads them.
- The mock expectations of the tests at undercover.rb:129-140 are not modelled. `Dispatch.DeliverAllSent` and `Dispatch.DeliverConnectFault` state the same behaviour.
- Commit order is the order of the event's `commits` sequence. This stands in for the hash's iteration order, which is insertion order from Ruby 1.9 on.
- `Notification.Parse / Escaping.Unescape` differ from a conforming XML reader in three ways. (a) A reader turns `"\r\n"` and a lone `"\r"` into `"\n"` (section 2.11 of XML 1.0), and `h` does not escape `\r`, so a message holding `\r` would not read back exactly; `Notification.CommitMessageDescribes` proves the exact text for every message. (b) An `&` that begins no reference is a well-formedness error for a reader, while `Unescape` copies it; `h` never produces one. (c) `elements[xpath].text` (undercover.rb:145) is `nil` for an empty element, while `Parse` gives the empty text.
- `Dispatch.Outcome` carries no value. `send_commit_messages!` returns the array of documents when every call completes, and `nil` after a rescued fault.
- Texts are sequences of Unicode characters. Byte strings with an invalid encoding cannot be represented, and on those `escapeHTML` raises in some Ruby versions.
