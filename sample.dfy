/** The sample push event that accompanies the notifier (two commits by one
    author on `refs/heads/master`) and what the notifier's tests expect of the
    documents made from it. The timestamp is left as a parameter: the sample
    takes the current time. */
module Sample {

  import opened Escaping
  import opened Notification
  import Decimal
  import Refs

  const FirstSha: string := "41a212ee83ca127e3c8cf465891ab7216a705f59"
  const SecondSha: string := "de8251ff97ee194a289832576287d6f8ad74e3d0"
  const CommitUrlPrefix: string := "http://github.com/alloy/undercover/commit/"
  const Eloy: Author := Author("Eloy Duran", "e.duran@superalloy.nl")

  function SampleEvent(timestamp: int): PushEvent {
    PushEvent("undercover", "refs/heads/master", [
      (FirstSha, Commit(CommitUrlPrefix + FirstSha, Eloy, "duck for cover", timestamp)),
      (SecondSha, Commit(CommitUrlPrefix + SecondSha, Eloy, "the company posted a message", timestamp))
    ])
  }

  /** What the tests assert of the texts read back from a document made for
      `sha` and `commit`: they decode to project `undercover`, branch `master`,
      the timestamp in decimal, author "Eloy Duran (e.duran@superalloy.nl)", and
      the hash, message and url of the commit. */
  predicate MeetsSampleTest(t: ElementTexts, sha: string, commit: Commit) {
    && Unescape(t.project) == "undercover"
    && Unescape(t.branch) == "master"
    && t.timestamp == Decimal.IntegerText(commit.timestamp)
    && Unescape(t.author) == Eloy.name + " (" + Eloy.email + ")"
    && Unescape(t.revision) == sha
    && Unescape(t.log) == commit.message
    && Unescape(t.url) == commit.url
  }

  /** Texts that describe a commit by Eloy Duran, pushed to `master` of
      `undercover`, meet the tests. */
  lemma DescribedSampleCommit(t: ElementTexts, event: PushEvent, sha: string, commit: Commit)
    requires Describes(t, event, sha, commit)
    requires event.repositoryName == "undercover" && BranchName(event.ref) == "master"
    requires commit.author == Eloy
    ensures MeetsSampleTest(t, sha, commit)
  {
  }

  /** A document made for a commit by Eloy Duran, pushed to `master` of
      `undercover`, reads back to texts meeting the tests. */
  lemma SampleDocument(event: PushEvent, sha: string, commit: Commit, d: Dialect)
    requires event.repositoryName == "undercover" && BranchName(event.ref) == "master"
    requires commit.author == Eloy
    ensures var t := Parse(CommitMessage(event, sha, commit, d));
      t.Some? && MeetsSampleTest(t.value, sha, commit)
  {
    CommitMessageDescribes(event, sha, commit, d);
    DescribedSampleCommit(Parse(CommitMessage(event, sha, commit, d)).value, event, sha, commit);
  }

  /** The sample gives two documents, one per commit and in order, each of
      which reads back to texts meeting the tests. */
  lemma SampleMessages(timestamp: int, d: Dialect)
    ensures var event := SampleEvent(timestamp);
      var docs := CommitMessages(event, d);
      && |docs| == 2
      && docs[0] == CommitMessage(event, FirstSha, event.commits[0].1, d)
      && docs[1] == CommitMessage(event, SecondSha, event.commits[1].1, d)
  {
  }

  /** Both documents of the sample meet the tests. */
  lemma SampleMessagesMeetTests(timestamp: int, d: Dialect)
    ensures var event := SampleEvent(timestamp);
      var first := Parse(CommitMessage(event, FirstSha, event.commits[0].1, d));
      var second := Parse(CommitMessage(event, SecondSha, event.commits[1].1, d));
      && first.Some? && MeetsSampleTest(first.value, FirstSha, event.commits[0].1)
      && second.Some? && MeetsSampleTest(second.value, SecondSha, event.commits[1].1)
  {
    var event := SampleEvent(timestamp);
    Refs.LastSegmentOfBranchRef();
    assert BranchName(event.ref) == "master";
    SampleDocument(event, FirstSha, event.commits[0].1, d);
    SampleDocument(event, SecondSha, event.commits[1].1, d);
  }

  /** The first commit's message holds no character the escaper rewrites, so it
      stands in its document as it is. */
  lemma SampleLogUnescaped(d: Dialect)
    ensures Escape("duck for cover", d) == "duck for cover"
  {
    var s := "duck for cover";
    assert NoSpecial(s, d) by {
      forall i | 0 <= i < |s| ensures !IsSpecial(s[i], d) {
        assert s[i] in "duck for cover";
      }
    }
    EscapeFixedPoint(s, d);
  }
}
