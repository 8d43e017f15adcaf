/** `flagIndention`: each record is indented when it sits inside a merge
    span, which a tag or a merge boundary closes. The records are updated in
    place, each reading the flag just written on the one before it. */
module Indentation {
  import opened Tags
  import opened Commits

  /** `commit.tag` is truthy: a version text, which is never empty. */
  predicate HasTag(r: CommitRecord)
  {
    r.tag.Version? && r.tag.version != ""
  }

  /** A record that is never indented: a tagged one or a merge boundary. */
  predicate Resets(r: CommitRecord)
  {
    HasTag(r) || r.mergeCommitStart || r.mergeCommitEnd
  }

  /** The flag `flagIndention` gives record `i`. */
  function IndentAt(rs: seq<CommitRecord>, i: nat): bool
    requires i < |rs|
  {
    if i == 0 || Resets(rs[i]) then false
    else rs[i - 1].mergeCommitStart || IndentAt(rs, i - 1)
  }

  /** The records with their indent flags set. */
  function Indented(rs: seq<CommitRecord>): (out: seq<CommitRecord>)
    ensures |out| == |rs|
  {
    seq(|rs|, i requires 0 <= i < |rs| => rs[i].(indent := IndentAt(rs, i)))
  }

  /** `flagIndention`, writing `indent` into each record of the array. */
  method FlagIndention(a: array<CommitRecord>)
    modifies a
    ensures a[..] == Indented(old(a[..]))
  {
    ghost var orig := a[..];
    for i := 0 to a.Length
      invariant forall k :: 0 <= k < i ==> a[k] == orig[k].(indent := IndentAt(orig, k))
      invariant forall k :: i <= k < a.Length ==> a[k] == orig[k]
    {
      var commit := a[i];
      if i > 0 {
        var prev := a[i - 1];
        if HasTag(commit) || commit.mergeCommitStart || commit.mergeCommitEnd {
          a[i] := commit.(indent := false);
        } else if prev.mergeCommitStart || prev.indent {
          a[i] := commit.(indent := true);
        } else {
          a[i] := commit.(indent := false);
        }
      } else {
        a[i] := commit.(indent := false);
      }
    }
  }

  // ---------------------------------------------------------------- properties

  /** Only the indent flags change, and they follow the rules of the pass:
      the first record and every resetting record are flush; any other
      record is indented when the one before it starts a merge or is itself
      indented. */
  lemma IndentedRules(rs: seq<CommitRecord>, i: nat)
    requires i < |rs|
    ensures Indented(rs)[i].(indent := rs[i].indent) == rs[i]
    ensures i == 0 ==> !Indented(rs)[i].indent
    ensures Resets(rs[i]) ==> !Indented(rs)[i].indent
    ensures 0 < i && !Resets(rs[i]) ==>
              Indented(rs)[i].indent == (Indented(rs)[i - 1].mergeCommitStart || Indented(rs)[i - 1].indent)
  {
  }

  /** A record is indented exactly when some earlier record starts a merge
      and neither the records after that start nor the record itself reset
      the indentation. */
  lemma {:induction false} IndentMeaning(rs: seq<CommitRecord>, i: nat)
    requires i < |rs|
    ensures IndentAt(rs, i) <==>
              exists j :: 0 <= j < i && rs[j].mergeCommitStart && forall k :: j < k <= i ==> !Resets(rs[k])
  {
    if i > 0 && !Resets(rs[i]) {
      IndentMeaning(rs, i - 1);
      if IndentAt(rs, i) {
        if rs[i - 1].mergeCommitStart {
          assert forall k :: i - 1 < k <= i ==> !Resets(rs[k]);
        } else {
          var j :| 0 <= j < i - 1 && rs[j].mergeCommitStart && forall k :: j < k <= i - 1 ==> !Resets(rs[k]);
          assert forall k :: j < k <= i ==> !Resets(rs[k]);
        }
      }
      if exists j :: 0 <= j < i && rs[j].mergeCommitStart && forall k :: j < k <= i ==> !Resets(rs[k]) {
        var j :| 0 <= j < i && rs[j].mergeCommitStart && forall k :: j < k <= i ==> !Resets(rs[k]);
        if j < i - 1 {
          assert forall k :: j < k <= i - 1 ==> !Resets(rs[k]);
        }
      }
    }
  }

  /** A record right after a merge start is indented unless it resets. */
  lemma IndentAfterStart(rs: seq<CommitRecord>, i: nat)
    requires 0 < i < |rs| && rs[i - 1].mergeCommitStart && !Resets(rs[i])
    ensures Indented(rs)[i].indent
  {
  }

  /** The flags do not depend on the flags already present, so setting them
      twice changes nothing. */
  lemma {:induction false} IndentIgnoresOld(rs: seq<CommitRecord>, i: nat)
    requires i < |rs|
    ensures IndentAt(Indented(rs), i) == IndentAt(rs, i)
  {
    if i > 0 {
      IndentIgnoresOld(rs, i - 1);
    }
  }

  lemma IndentedIdempotent(rs: seq<CommitRecord>)
    ensures Indented(Indented(rs)) == Indented(rs)
  {
    forall i | 0 <= i < |rs| ensures Indented(Indented(rs))[i] == Indented(rs)[i] {
      IndentIgnoresOld(rs, i);
    }
  }
}
