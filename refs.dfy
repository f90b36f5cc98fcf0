/**
  The branch name the notifier reports: `ref.split('/').last` in Ruby. `split` with
  a one-character string pattern cuts the text at every `/` and then drops the
  empty fields at the end of the list; `last` of the empty list is `nil`.
 */
module Refs {

  import opened Options

  const Slash := '/'

  /** Every `/`-separated field of `s`, empty ones included: one more field than
      `s` has slashes, none of them holding a slash. Built from the right, so that
      the last field is at hand. */
  function AllFields(s: string): (r: seq<string>)
    ensures |r| >= 1
    ensures forall k :: 0 <= k < |r| ==> Slash !in r[k]
    decreases |s|
  {
    if s == [] then [""]
    else
      var init, c := AllFields(s[..|s| - 1]), s[|s| - 1];
      if c == Slash then init + [""]
      else init[..|init| - 1] + [init[|init| - 1] + [c]]
  }

  /** The fields glued back together with `/` between neighbours. */
  function Join(fields: seq<string>): string
    decreases |fields|
  {
    if fields == [] then ""
    else if |fields| == 1 then fields[0]
    else Join(fields[..|fields| - 1]) + [Slash] + fields[|fields| - 1]
  }

  /** `fields` without the empty fields at its end: a prefix of `fields` that is
      empty or ends in a non-empty field, and whatever it leaves out is empty. */
  function DropTrailingEmpty(fields: seq<string>): (r: seq<string>)
    ensures r <= fields
    ensures r == [] || r[|r| - 1] != []
    ensures forall k :: |r| <= k < |fields| ==> fields[k] == []
    decreases |fields|
  {
    if fields != [] && fields[|fields| - 1] == [] then DropTrailingEmpty(fields[..|fields| - 1])
    else fields
  }

  /** Ruby's `s.split('/')`. */
  function Split(s: string): seq<string> {
    DropTrailingEmpty(AllFields(s))
  }

  /** `ref.split('/').last`: `None` plays Ruby's `nil`. */
  function LastSegment(ref: string): Option<string> {
    var fields := Split(ref);
    if fields == [] then None else Some(fields[|fields| - 1])
  }

  // An independent description of the same text: strip the trailing slashes, then
  // keep what follows the last remaining slash.

  /** `s` without its trailing slashes. */
  function TrimTrailingSlashes(s: string): (r: string)
    ensures r <= s
    ensures r == [] || r[|r| - 1] != Slash
    ensures forall i :: |r| <= i < |s| ==> s[i] == Slash
    decreases |s|
  {
    if s != [] && s[|s| - 1] == Slash then TrimTrailingSlashes(s[..|s| - 1]) else s
  }

  /** The text after the last slash of `s` (all of `s` when it has none). */
  function AfterLastSlash(s: string): (r: string)
    ensures |r| <= |s| && s[|s| - |r|..] == r
    ensures Slash !in r
    ensures |r| == |s| || s[|s| - |r| - 1] == Slash
    decreases |s|
  {
    if s == [] || s[|s| - 1] == Slash then []
    else AfterLastSlash(s[..|s| - 1]) + [s[|s| - 1]]
  }

  /** Glueing the fields back together gives the text that was split. */
  lemma {:induction false} JoinAllFields(s: string)
    ensures Join(AllFields(s)) == s
    decreases |s|
  {
    if s != [] {
      var t, c := s[..|s| - 1], s[|s| - 1];
      var init := AllFields(t);
      JoinAllFields(t);
      assert s == t + [c];
      var n := |init|;
      if c == Slash {
        assert (init + [""])[..n] == init;
      } else if n == 1 {
        assert Join(AllFields(s)) == init[0] + [c];
      } else {
        var fs := init[..n - 1] + [init[n - 1] + [c]];
        assert fs[..n - 1] == init[..n - 1];
        assert Join(fs) == Join(init[..n - 1]) + [Slash] + (init[n - 1] + [c]);
        assert Join(init) == Join(init[..n - 1]) + [Slash] + init[n - 1];
      }
    }
  }

  /** The last field, empty or not, is the text after the last slash. */
  lemma {:induction false} LastFieldAfterLastSlash(s: string)
    ensures var fs := AllFields(s); fs[|fs| - 1] == AfterLastSlash(s)
    decreases |s|
  {
    if s != [] && s[|s| - 1] != Slash {
      LastFieldAfterLastSlash(s[..|s| - 1]);
    }
  }

  /** A slash at the end adds one empty field, which `split` drops again. */
  lemma SplitTrailingSlash(t: string)
    ensures Split(t + [Slash]) == Split(t)
  {
    var init := AllFields(t);
    assert (t + [Slash])[..|t|] == t;
    assert AllFields(t + [Slash]) == init + [""];
    assert (init + [""])[..|init|] == init;
  }

  /** Without a slash at the end, the last field is not empty and `split` keeps
      every field. */
  lemma {:induction false} SplitNoTrailingSlash(s: string)
    requires s != [] && s[|s| - 1] != Slash
    ensures Split(s) == AllFields(s)
    ensures var fs := AllFields(s); fs[|fs| - 1] == AfterLastSlash(s) != []
  {
    LastFieldAfterLastSlash(s);
    AfterLastSlashOfNonSlash(s);
    KeepNonEmptyLast(AllFields(s));
  }

  lemma {:induction false} AfterLastSlashOfNonSlash(s: string)
    requires s != [] && s[|s| - 1] != Slash
    ensures AfterLastSlash(s) != []
  {
    assert AfterLastSlash(s) == AfterLastSlash(s[..|s| - 1]) + [s[|s| - 1]];
  }

  lemma {:induction false} KeepNonEmptyLast(fields: seq<string>)
    requires fields != [] && fields[|fields| - 1] != []
    ensures DropTrailingEmpty(fields) == fields
  {
  }

  /** The branch text is the last `/`-segment once trailing slashes are ignored;
      a ref made only of slashes (the empty ref among them) has none. */
  lemma {:induction false} LastSegmentAfterLastSlash(ref: string)
    ensures LastSegment(ref)
         == if TrimTrailingSlashes(ref) == [] then None
            else Some(AfterLastSlash(TrimTrailingSlashes(ref)))
    decreases |ref|
  {
    if ref != [] {
      var t := ref[..|ref| - 1];
      if ref[|ref| - 1] == Slash {
        LastSegmentAfterLastSlash(t);
        assert ref == t + [Slash];
        SplitTrailingSlash(t);
      } else {
        SplitNoTrailingSlash(ref);
      }
    }
  }

  /** `AfterLastSlash` is the only slash-free suffix that starts the text or follows
      a slash. */
  lemma {:induction false} AfterLastSlashUnique(s: string, b: string)
    requires |b| <= |s| && s[|s| - |b|..] == b && Slash !in b
    requires |b| == |s| || s[|s| - |b| - 1] == Slash
    ensures AfterLastSlash(s) == b
  {
    var r := AfterLastSlash(s);
    forall i | |s| - |b| <= i < |s|
      ensures s[i] != Slash
    {
      assert s[i] == b[i - (|s| - |b|)];
    }
    forall i | |s| - |r| <= i < |s|
      ensures s[i] != Slash
    {
      assert s[i] == r[i - (|s| - |r|)];
    }
    assert |r| == |b|;
  }

  /** `TrimTrailingSlashes` is the only prefix that is empty or ends in a non-slash
      and is followed only by slashes. */
  lemma TrimTrailingSlashesUnique(s: string, t: string)
    requires t <= s && (t == [] || t[|t| - 1] != Slash)
    requires forall i :: |t| <= i < |s| ==> s[i] == Slash
    ensures TrimTrailingSlashes(s) == t
  {
  }

  /** `None` exactly for a ref made only of slashes, the empty ref among them. */
  lemma LastSegmentNone(ref: string)
    ensures LastSegment(ref).None? <==> forall i :: 0 <= i < |ref| ==> ref[i] == Slash
  {
    LastSegmentAfterLastSlash(ref);
    var t := TrimTrailingSlashes(ref);
    if t != [] {
      assert ref[|t| - 1] == t[|t| - 1] != Slash;
    }
  }

  /** `ref` is `p + b + q`, where `b` is a non-empty slash-free segment that the
      start of `ref` or a slash precedes and only slashes follow. */
  predicate IsFinalSegment(ref: string, p: string, b: string, q: string) {
    && ref == p + b + q
    && b != [] && Slash !in b
    && (p == [] || p[|p| - 1] == Slash)
    && (forall i :: 0 <= i < |q| ==> q[i] == Slash)
  }

  /** A slash-free tail `b` of a prefix `t` that ends in a non-slash, with only
      slashes after `t`, is the final segment of `ref`. */
  lemma FinalSegmentOfTrimmed(ref: string, t: string, b: string)
    requires t <= ref && t != [] && t[|t| - 1] != Slash
    requires forall i :: |t| <= i < |ref| ==> ref[i] == Slash
    requires |b| <= |t| && t[|t| - |b|..] == b && Slash !in b
    requires |b| == |t| || t[|t| - |b| - 1] == Slash
    ensures exists p, q :: IsFinalSegment(ref, p, b, q)
  {
    var p, q := t[..|t| - |b|], ref[|t|..];
    assert b != [] by {
      assert t[|t| - 1] != Slash;
    }
    assert t == p + b;
    assert ref == p + b + q;
    assert forall i :: 0 <= i < |q| ==> q[i] == ref[|t| + i];
    assert IsFinalSegment(ref, p, b, q);
  }

  lemma TrimmedTailShape(ref: string)
    requires TrimTrailingSlashes(ref) != []
    ensures exists p, q :: IsFinalSegment(ref, p, AfterLastSlash(TrimTrailingSlashes(ref)), q)
  {
    var t := TrimTrailingSlashes(ref);
    FinalSegmentOfTrimmed(ref, t, AfterLastSlash(t));
  }

  /** Otherwise the branch text is a non-empty, slash-free part of `ref` that the
      start of `ref` or a slash precedes and only slashes follow. */
  lemma LastSegmentSome(ref: string)
    requires LastSegment(ref).Some?
    ensures exists p, q :: IsFinalSegment(ref, p, LastSegment(ref).value, q)
  {
    LastSegmentAfterLastSlash(ref);
    TrimmedTailShape(ref);
  }

  lemma {:induction false} LastSegmentNoTrailingSlash(s: string)
    requires s != [] && s[|s| - 1] != Slash
    ensures LastSegment(s) == Some(AfterLastSlash(s))
  {
    SplitNoTrailingSlash(s);
  }

  /** A ref ending in a non-empty, slash-free segment after a slash gives that
      segment. */
  lemma {:induction false} LastSegmentOfPath(p: string, b: string)
    requires b != [] && Slash !in b
    ensures LastSegment(p + [Slash] + b) == Some(b)
  {
    var s := p + [Slash] + b;
    assert s[|s| - 1] == b[|b| - 1];
    LastSegmentNoTrailingSlash(s);
    assert s[|s| - |b|..] == b;
    AfterLastSlashUnique(s, b);
  }

  /** A non-empty ref without a slash is its own branch. */
  lemma {:induction false} LastSegmentOfBareName(b: string)
    requires b != [] && Slash !in b
    ensures LastSegment(b) == Some(b)
  {
    assert b[|b| - 1] in b;
    assert b[0..] == b;
    LastSegmentNoTrailingSlash(b);
    AfterLastSlashUnique(b, b);
  }

  /** Slashes at the end of a ref are ignored. */
  lemma LastSegmentTrailingSlash(ref: string)
    ensures LastSegment(ref + [Slash]) == LastSegment(ref)
  {
    SplitTrailingSlash(ref);
  }

  /** The ref of the test data gives `master`. */
  lemma LastSegmentOfBranchRef()
    ensures LastSegment("refs/heads/master") == Some("master")
  {
    LastSegmentOfPath("refs/heads", "master");
    assert "refs/heads" + [Slash] + "master" == "refs/heads/master";
  }

  /** A ref ending in a slash gives the segment before it. */
  lemma LastSegmentOfDirectoryRef()
    ensures LastSegment("refs/heads/") == Some("heads")
  {
    LastSegmentOfPath("refs", "heads");
    assert "refs" + [Slash] + "heads" == "refs/heads";
    LastSegmentTrailingSlash("refs/heads");
    assert "refs/heads" + [Slash] == "refs/heads/";
  }

  /** The empty ref has no segment. */
  lemma LastSegmentOfEmptyRef()
    ensures LastSegment("") == None
  {
    assert AllFields("") == [""];
  }
}
