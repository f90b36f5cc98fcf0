/**
  `Cia#commit_messages`: one XML notification document per commit of a push event,
  in the order the commits are listed. Each document is the fixed template of
  the source, byte for byte (its line breaks and indentation included), with
  escaped field values in seven places.
 */
module Notification {

  import opened Options
  import opened Escaping
  import Decimal
  import Refs

  datatype Author = Author(name: string, email: string)

  /** A commit record; `timestamp` is the commit time in whole seconds since the
      Unix epoch, already truncated. */
  datatype Commit = Commit(url: string, author: Author, message: string, timestamp: int)

  /** The push-event fields the formatter reads. `commits` lists the commit hash
      and record pairs in the order the event's hash yields them. */
  datatype PushEvent = PushEvent(repositoryName: string, ref: string, commits: seq<(string, Commit)>)

  /** The character data of the seven elements that carry values, as it stands in
      the document (escaped). */
  datatype ElementTexts = ElementTexts(
    project: string, branch: string, timestamp: string,
    author: string, revision: string, log: string, url: string)

  // The fixed parts of the template, from the opening line break of the literal
  // to the indentation before its closing brace.

  const Opening: string :=
    "\n        <message xmlns:xsi=\"http://www.w3.org/2001/XMLSchema-instance\" xsi:noNamespaceSchemaLocation=\"schema.xsd\">"
    + "\n          <generator>"
    + "\n            <name>Undercover: CIA Ruby agent for GitHub</name>"
    + "\n            <version>1.0</version>"
    + "\n          </generator>"
    + "\n          <source>"
    + "\n            <project>"
  const AfterProject: string := "</project>" + "\n            <branch>"
  const AfterBranch: string := "</branch>" + "\n          </source>" + "\n          <timestamp>"
  const AfterTimestamp: string :=
    "</timestamp>" + "\n          <body>" + "\n            <commit>" + "\n              <author>"
  const AfterAuthor: string := "</author>" + "\n              <revision>"
  const AfterRevision: string := "</revision>" + "\n              <log>"
  const AfterLog: string := "</log>" + "\n              <url>"
  const Closing: string :=
    "</url>" + "\n            </commit>" + "\n          </body>" + "\n        </message>" + "\n      "

  /** The template with the element texts filled in. */
  function Render(t: ElementTexts): string {
    Opening + (t.project + (AfterProject + (t.branch + (AfterBranch + (t.timestamp
      + (AfterTimestamp + (t.author + (AfterAuthor + (t.revision + (AfterRevision
      + (t.log + (AfterLog + (t.url + Closing)))))))))))))
  }

  /** `h @data[:ref].split('/').last`: `h(nil)` is the empty text. */
  function BranchText(ref: string, d: Dialect): string {
    match Refs.LastSegment(ref)
    case None => ""
    case Some(b) => Escape(b, d)
  }

  /** The branch name a reader recovers from the document. */
  function BranchName(ref: string): string {
    match Refs.LastSegment(ref)
    case None => ""
    case Some(b) => b
  }

  /** What the template substitutes for commit `sha` of `event`. */
  function CommitTexts(event: PushEvent, sha: string, commit: Commit, d: Dialect): ElementTexts {
    ElementTexts(
      Escape(event.repositoryName, d),
      BranchText(event.ref, d),
      Escape(Decimal.IntegerText(commit.timestamp), d),
      Escape(commit.author.name, d) + " (" + Escape(commit.author.email, d) + ")",
      Escape(sha, d),
      Escape(commit.message, d),
      Escape(commit.url, d))
  }

  /** The notification document for one commit. */
  function CommitMessage(event: PushEvent, sha: string, commit: Commit, d: Dialect): string {
    Render(CommitTexts(event, sha, commit, d))
  }

  /** `commit_messages`: one document per commit, in the order of `event.commits`. */
  function CommitMessages(event: PushEvent, d: Dialect): (docs: seq<string>)
    ensures |docs| == |event.commits|
    ensures forall i :: 0 <= i < |docs| ==>
      docs[i] == CommitMessage(event, event.commits[i].0, event.commits[i].1, d)
  {
    seq(|event.commits|, i requires 0 <= i < |event.commits| =>
      CommitMessage(event, event.commits[i].0, event.commits[i].1, d))
  }

  lemma PrefixOfConcat(a: string, b: string)
    ensures a <= a + b
  {
    assert (a + b)[..|a|] == a;
  }

  /** Whatever the event and the commit, every document opens with the same root
      element attributes, generator name and version. */
  lemma CommitMessageOpening(event: PushEvent, sha: string, commit: Commit, d: Dialect)
    ensures Opening <= CommitMessage(event, sha, commit, d)
  {
    var t := CommitTexts(event, sha, commit, d);
    PrefixOfConcat(Opening, Render(t)[|Opening|..]);
  }

  // Reading a document back, in place of the element lookups of the tests: the
  // fixed parts must match exactly and each element's text runs up to the next
  // `<`. Only documents of the template's shape are read.

  predicate NoLt(s: string) {
    forall i :: 0 <= i < |s| ==> s[i] != '<'
  }

  /** The character data at the front of `s` and what follows it. */
  function ReadText(s: string): (r: (string, string))
    ensures r.0 + r.1 == s
    ensures NoLt(r.0)
    ensures r.1 == [] || r.1[0] == '<'
    decreases |s|
  {
    if s == [] || s[0] == '<' then ([], s)
    else
      var (text, rest) := ReadText(s[1..]);
      assert s == [s[0]] + s[1..];
      Regroup([s[0]], text, rest);
      ([s[0]] + text, rest)
  }

  /** What follows the literal `lit` at the front of `s`. */
  function Expect(lit: string, s: string): (r: Option<string>)
    ensures r.Some? ==> s == lit + r.value
  {
    if lit <= s then Some(s[|lit|..]) else None
  }

  /** After the literal `lit`, the character data up to the next `<` and what
      follows it. */
  function Field(lit: string, s: string): (r: Option<(string, string)>)
    ensures r.Some? ==> s == lit + (r.value.0 + r.value.1)
    ensures r.Some? ==> NoLt(r.value.0) && (r.value.1 == [] || r.value.1[0] == '<')
  {
    var rest :- Expect(lit, s);
    Some(ReadText(rest))
  }

  /** The element texts of a document in the shape of the template. */
  function Parse(doc: string): Option<ElementTexts> {
    var project :- Field(Opening, doc);
    var branch :- Field(AfterProject, project.1);
    var timestamp :- Field(AfterBranch, branch.1);
    var author :- Field(AfterTimestamp, timestamp.1);
    var revision :- Field(AfterAuthor, author.1);
    var log :- Field(AfterRevision, revision.1);
    var url :- Field(AfterLog, log.1);
    if url.1 == Closing then
      Some(ElementTexts(project.0, branch.0, timestamp.0, author.0, revision.0, log.0, url.0))
    else None
  }

  /** No element text holds a `<`. */
  predicate TextsNoLt(t: ElementTexts) {
    NoLt(t.project) && NoLt(t.branch) && NoLt(t.timestamp) && NoLt(t.author)
    && NoLt(t.revision) && NoLt(t.log) && NoLt(t.url)
  }

  lemma {:induction false} ReadTextThen(text: string, rest: string)
    requires NoLt(text) && (rest == [] || rest[0] == '<')
    ensures ReadText(text + rest) == (text, rest)
    decreases |text|
  {
    if text == [] {
      assert text + rest == rest;
    } else {
      assert (text + rest)[0] == text[0] != '<';
      assert (text + rest)[1..] == text[1..] + rest;
      ReadTextThen(text[1..], rest);
      assert text == [text[0]] + text[1..];
    }
  }

  lemma FieldThen(lit: string, text: string, rest: string)
    requires NoLt(text) && (rest == [] || rest[0] == '<')
    ensures Field(lit, lit + (text + rest)) == Some((text, rest))
  {
    var s := lit + (text + rest);
    assert s[..|lit|] == lit;
    assert s[|lit|..] == text + rest;
    ReadTextThen(text, rest);
  }

  lemma OpensWithLt(lit: string, rest: string)
    requires lit != [] && lit[0] == '<'
    ensures (lit + rest)[0] == '<'
  {
  }

  /** Reading back a rendered document gives the texts that were rendered, as long
      as none of them holds a `<`. */
  lemma ParseRender(t: ElementTexts)
    requires TextsNoLt(t)
    ensures Parse(Render(t)) == Some(t)
  {
    var r6 := AfterLog + (t.url + Closing);
    var r5 := AfterRevision + (t.log + r6);
    var r4 := AfterAuthor + (t.revision + r5);
    var r3 := AfterTimestamp + (t.author + r4);
    var r2 := AfterBranch + (t.timestamp + r3);
    var r1 := AfterProject + (t.branch + r2);
    OpensWithLt(AfterLog, t.url + Closing);
    OpensWithLt(AfterRevision, t.log + r6);
    OpensWithLt(AfterAuthor, t.revision + r5);
    OpensWithLt(AfterTimestamp, t.author + r4);
    OpensWithLt(AfterBranch, t.timestamp + r3);
    OpensWithLt(AfterProject, t.branch + r2);
    assert Closing[0] == '<';
    FieldThen(Opening, t.project, r1);
    FieldThen(AfterProject, t.branch, r2);
    FieldThen(AfterBranch, t.timestamp, r3);
    FieldThen(AfterTimestamp, t.author, r4);
    FieldThen(AfterAuthor, t.revision, r5);
    FieldThen(AfterRevision, t.log, r6);
    FieldThen(AfterLog, t.url, Closing);
  }

  /** Whatever reads back as texts is the template filled with those texts. */
  lemma ParseSound(doc: string)
    requires Parse(doc).Some?
    ensures TextsNoLt(Parse(doc).value) && doc == Render(Parse(doc).value)
  {
    var project := Field(Opening, doc).value;
    var branch := Field(AfterProject, project.1).value;
    var timestamp := Field(AfterBranch, branch.1).value;
    var author := Field(AfterTimestamp, timestamp.1).value;
    var revision := Field(AfterAuthor, author.1).value;
    var log := Field(AfterRevision, revision.1).value;
    var url := Field(AfterLog, log.1).value;
    var t := ElementTexts(project.0, branch.0, timestamp.0, author.0, revision.0, log.0, url.0);
    assert Parse(doc) == Some(t);
  }

  /** Decoded, the element texts give back the commit's data exactly: the
      repository name, the branch, the timestamp in seconds, "name (email)", the
      hash, the message and the url. */
  predicate Describes(t: ElementTexts, event: PushEvent, sha: string, commit: Commit) {
    && Unescape(t.project) == event.repositoryName
    && Unescape(t.branch) == BranchName(event.ref)
    && t.timestamp == Decimal.IntegerText(commit.timestamp)
    && Unescape(t.author) == commit.author.name + " (" + commit.author.email + ")"
    && Unescape(t.revision) == sha
    && Unescape(t.log) == commit.message
    && Unescape(t.url) == commit.url
  }

  lemma EscapeNoLt(s: string, d: Dialect)
    ensures NoLt(Escape(s, d))
  {
    EscapeNoRawMarkup(s, d);
    var r := Escape(s, d);
    forall i | 0 <= i < |r| ensures r[i] != '<' {
      assert !IsRawMarkup(r[i], d);
    }
  }

  /** The rendered timestamp holds only digits and a leading minus sign, which
      escaping leaves alone. */
  lemma EscapeIntegerText(n: int, d: Dialect)
    ensures Escape(Decimal.IntegerText(n), d) == Decimal.IntegerText(n)
  {
    var r := Decimal.IntegerText(n);
    assert NoSpecial(r, d) by {
      forall i | 0 <= i < |r| ensures !IsSpecial(r[i], d) {
        assert Decimal.IsDigit(r[i]) || r[i] == '-';
      }
    }
    EscapeFixedPoint(r, d);
  }

  lemma RegroupAfter(a: string, b: string, c: string, e: string)
    ensures a + b + c + e == a + (b + c + e)
  {
  }

  lemma UnescapePlain(c: char, t: string)
    requires c != '&'
    ensures Unescape([c] + t) == [c] + Unescape(t)
  {
    var u := [c] + t;
    assert u[0] == c && u[1..] == t;
  }

  lemma UnescapeAfterEscape(s: string, d: Dialect, c: char)
    requires c != '&'
    ensures Unescape(Escape(s, d) + [c]) == s + [c]
  {
    UnescapeEscapeThen(s, d, [c]);
    UnescapePlain(c, []);
    assert [c] + [] == [c];
  }

  /** `" (" + Escape(email) + ")"` decodes to `" (" + email + ")"`. */
  lemma UnescapeParenthesized(email: string, d: Dialect)
    ensures Unescape(" (" + Escape(email, d) + ")") == " (" + email + ")"
  {
    var e := Escape(email, d) + ")";
    UnescapeAfterEscape(email, d, ')');
    UnescapePlain('(', e);
    UnescapePlain(' ', ['('] + e);
    assert " (" == [' '] + ['('];
    Regroup(" (", Escape(email, d), ")");
    Regroup([' '], ['('], e);
    Regroup(" (", email, ")");
    Regroup([' '], ['('], email + ")");
  }

  /** The author text decodes to "name (email)"; the space and the parentheses
      around the escaped parts are copied as they are. */
  lemma AuthorRoundTrip(name: string, email: string, d: Dialect)
    ensures Unescape(Escape(name, d) + " (" + Escape(email, d) + ")") == name + " (" + email + ")"
  {
    var n, e := Escape(name, d), Escape(email, d);
    RegroupAfter(n, " (", e, ")");
    RegroupAfter(name, " (", email, ")");
    UnescapeParenthesized(email, d);
    UnescapeEscapeThen(name, d, " (" + e + ")");
  }

  lemma AuthorNoLt(name: string, email: string, d: Dialect)
    ensures NoLt(Escape(name, d) + " (" + Escape(email, d) + ")")
  {
    var n, e := Escape(name, d), Escape(email, d);
    EscapeNoLt(name, d);
    EscapeNoLt(email, d);
    var a := n + " (" + e + ")";
    forall i | 0 <= i < |a| ensures a[i] != '<' {
      if i < |n| { assert a[i] == n[i]; }
      else if i < |n| + 2 { assert a[i] == " ("[i - |n|]; }
      else if i < |n| + 2 + |e| { assert a[i] == e[i - |n| - 2]; }
      else { assert a[i] == ')'; }
    }
  }

  /** None of the texts the template substitutes holds a `<`. */
  lemma CommitTextsNoLt(event: PushEvent, sha: string, commit: Commit, d: Dialect)
    ensures TextsNoLt(CommitTexts(event, sha, commit, d))
  {
    EscapeNoLt(event.repositoryName, d);
    match Refs.LastSegment(event.ref) {
      case None =>
      case Some(b) => EscapeNoLt(b, d);
    }
    EscapeNoLt(Decimal.IntegerText(commit.timestamp), d);
    AuthorNoLt(commit.author.name, commit.author.email, d);
    EscapeNoLt(sha, d);
    EscapeNoLt(commit.message, d);
    EscapeNoLt(commit.url, d);
  }

  /** Each document reads back as the template's seven texts: the escaped
      repository name, the escaped last segment of the ref, the timestamp in
      decimal, the escaped author name and email around " (" and ")", and the
      escaped hash, message and url. */
  lemma CommitMessageReadsBack(event: PushEvent, sha: string, commit: Commit, d: Dialect)
    ensures Parse(CommitMessage(event, sha, commit, d)) == Some(ElementTexts(
      Escape(event.repositoryName, d),
      BranchText(event.ref, d),
      Decimal.IntegerText(commit.timestamp),
      Escape(commit.author.name, d) + " (" + Escape(commit.author.email, d) + ")",
      Escape(sha, d),
      Escape(commit.message, d),
      Escape(commit.url, d)))
  {
    var t := CommitTexts(event, sha, commit, d);
    CommitTextsNoLt(event, sha, commit, d);
    EscapeIntegerText(commit.timestamp, d);
    ParseRender(t);
  }

  /** The texts the template substitutes decode to the commit's data. */
  lemma CommitTextsDescribe(event: PushEvent, sha: string, commit: Commit, d: Dialect)
    ensures Describes(CommitTexts(event, sha, commit, d).(timestamp := Decimal.IntegerText(commit.timestamp)),
                      event, sha, commit)
  {
    UnescapeEscape(event.repositoryName, d);
    match Refs.LastSegment(event.ref) {
      case None =>
      case Some(b) => UnescapeEscape(b, d);
    }
    AuthorRoundTrip(commit.author.name, commit.author.email, d);
    UnescapeEscape(sha, d);
    UnescapeEscape(commit.message, d);
    UnescapeEscape(commit.url, d);
  }

  /** What the tests check of a document: reading it back and decoding the
      entities gives the commit's data. */
  lemma CommitMessageDescribes(event: PushEvent, sha: string, commit: Commit, d: Dialect)
    ensures var t := Parse(CommitMessage(event, sha, commit, d));
      t.Some? && Describes(t.value, event, sha, commit)
  {
    CommitMessageReadsBack(event, sha, commit, d);
    CommitTextsDescribe(event, sha, commit, d);
  }

  /** One document per commit, in order: the i-th document describes the i-th
      (hash, commit) pair. */
  lemma CommitMessagesDescribeCommits(event: PushEvent, d: Dialect)
    ensures |CommitMessages(event, d)| == |event.commits|
    ensures forall i :: 0 <= i < |event.commits| ==>
      var t := Parse(CommitMessages(event, d)[i]);
      t.Some? && Describes(t.value, event, event.commits[i].0, event.commits[i].1)
  {
    var docs := CommitMessages(event, d);
    forall i | 0 <= i < |event.commits|
      ensures var t := Parse(docs[i]);
        t.Some? && Describes(t.value, event, event.commits[i].0, event.commits[i].1)
    {
      CommitMessageDescribes(event, event.commits[i].0, event.commits[i].1, d);
    }
  }
}
