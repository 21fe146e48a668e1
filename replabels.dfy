/**
  The replabel codec: packing runs of a repeated token into the token followed
  by a "count" token, and unpacking them again.

  The count token of value r stands for r EXTRA copies of the token before it,
  so "abbccc" packs to "ab1c2" and "ab1c2" unpacks to "abbccc". At most
  maxReps extra copies fit behind one token; a longer run is cut into chunks
  of maxReps + 1 copies, each followed by the count token for maxReps.

  The core functions `Pack` and `Unpack` work on the replabel table `reps`,
  where reps[k - 1] is the dictionary index of the count token for k.
  `PackReplabels` and `UnpackReplabels` look the table up in the dictionary
  first, as the library functions of the same name do.
*/
module Replabels {

  import opened Wrappers
  import opened TokenDictionary

  // ---------------------------------------------------------------------------
  // Sequences of token indices

  /** n copies of token t. */
  function Repeat(t: int, n: nat): (r: seq<int>)
    ensures |r| == n
    ensures forall i :: 0 <= i < n ==> r[i] == t
  {
    if n == 0 then [] else [t] + Repeat(t, n - 1)
  }

  /** No token equals the token right before it. */
  predicate NoAdjacentRepeats(s: seq<int>) {
    forall i :: 0 < i < |s| ==> s[i - 1] != s[i]
  }

  /** No index of the replabel table occurs in s (s holds letters only). */
  predicate NoReplabels(s: seq<int>, reps: seq<int>) {
    forall i :: 0 <= i < |s| ==> s[i] !in reps
  }

  /** The count tokens have pairwise distinct indices. */
  predicate DistinctReplabels(reps: seq<int>) {
    forall i, j :: 0 <= i < j < |reps| ==> reps[i] != reps[j]
  }

  // ---------------------------------------------------------------------------
  // The replabel table

  /** The indices of the count tokens for 1 .. maxReps, in order of value. */
  function ReplabelTable(d: Dictionary, maxReps: int): (reps: seq<int>)
    requires CountTokensRegistered(d, maxReps)
    ensures |reps| == if maxReps > 0 then maxReps else 0
    ensures forall k :: 1 <= k <= |reps| ==> reps[k - 1] == d.entries[d.countToken(k)]
    decreases maxReps
  {
    if maxReps <= 0 then []
    else ReplabelTable(d, maxReps - 1) + [d.entries[d.countToken(maxReps)]]
  }

  /** In a bijective dictionary, differently spelled count tokens have different indices. */
  lemma {:induction false} ReplabelTableDistinct(d: Dictionary, maxReps: int)
    requires Valid(d) && CountTokensRegistered(d, maxReps) && CountTokensDistinct(d, maxReps)
    ensures DistinctReplabels(ReplabelTable(d, maxReps))
  {
    var reps := ReplabelTable(d, maxReps);
    forall i, j | 0 <= i < j < |reps| ensures reps[i] != reps[j] {
      assert reps[i] == d.entries[d.countToken(i + 1)];
      assert reps[j] == d.entries[d.countToken(j + 1)];
      assert d.countToken(i + 1) != d.countToken(j + 1);
    }
  }

  /** The repeat value a count token stands for: the first k with reps[k - 1] == x. */
  function ReplabelValue(reps: seq<int>, x: int): (k: nat)
    requires x in reps
    ensures 1 <= k <= |reps| && reps[k - 1] == x
    ensures forall j :: 0 <= j < k - 1 ==> reps[j] != x
  {
    if reps[0] == x then 1 else 1 + ReplabelValue(reps[1..], x)
  }

  lemma {:induction false} ReplabelValueOf(reps: seq<int>, k: nat)
    requires DistinctReplabels(reps) && 1 <= k <= |reps|
    ensures ReplabelValue(reps, reps[k - 1]) == k
  {
  }

  // ---------------------------------------------------------------------------
  // Packing

  /** How many copies of t open s, counting at most cap of them. */
  function RunExtra(t: int, s: seq<int>, cap: nat): (n: nat)
    ensures n <= cap && n <= |s|
    ensures forall i :: 0 <= i < n ==> s[i] == t
    ensures n < cap && n < |s| ==> s[n] != t
  {
    if cap == 0 || s == [] || s[0] != t then 0 else 1 + RunExtra(t, s[1..], cap - 1)
  }

  /**
    Scans s left to right; each token is followed by the count token for the
    number of copies of it that come right after it (at most |reps|), and
    those copies are dropped.
  */
  function Pack(s: seq<int>, reps: seq<int>): (r: seq<int>)
    ensures |r| <= |s|
    ensures s != [] ==> r != [] && r[0] == s[0]
    decreases |s|
  {
    if s == [] then []
    else
      var n := RunExtra(s[0], s[1..], |reps|);
      (if n == 0 then [s[0]] else [s[0], reps[n - 1]]) + Pack(s[n + 1..], reps)
  }

  /** One step of the scan: the first token, its count token if any, then the rest packed. */
  lemma {:induction false} PackStep(s: seq<int>, reps: seq<int>)
    requires s != []
    ensures var n := RunExtra(s[0], s[1..], |reps|);
      Pack(s, reps) == (if n == 0 then [s[0]] else [s[0], reps[n - 1]]) + Pack(s[n + 1..], reps)
  {
  }

  lemma {:induction false} AppendElements(head: seq<int>, tail: seq<int>, s: seq<int>, k: nat, reps: seq<int>)
    requires k <= |s|
    requires forall i :: 0 <= i < |head| ==> head[i] in s || head[i] in reps
    requires forall i :: 0 <= i < |tail| ==> tail[i] in s[k..] || tail[i] in reps
    ensures forall i :: 0 <= i < |head + tail| ==> (head + tail)[i] in s || (head + tail)[i] in reps
  {
  }

  /** Packing emits only tokens of the input and count tokens. */
  lemma {:induction false} PackElements(s: seq<int>, reps: seq<int>)
    ensures forall i :: 0 <= i < |Pack(s, reps)| ==> Pack(s, reps)[i] in s || Pack(s, reps)[i] in reps
    decreases |s|
  {
    if s != [] {
      var n := RunExtra(s[0], s[1..], |reps|);
      PackElements(s[n + 1..], reps);
      PackStep(s, reps);
      var head := if n == 0 then [s[0]] else [s[0], reps[n - 1]];
      assert forall i :: 0 <= i < |head| ==> head[i] in s || head[i] in reps;
      AppendElements(head, Pack(s[n + 1..], reps), s, n + 1, reps);
    }
  }

  /** `packReplabels`: packs with the count tokens that the dictionary holds for 1 .. maxReps. */
  function PackReplabels(tokens: seq<int>, d: Dictionary, maxReps: int): (r: seq<int>)
    requires CountTokensRegistered(d, maxReps)
    ensures |r| <= |tokens|
    ensures forall i :: 0 <= i < |r| ==>
      r[i] in tokens || exists k :: 1 <= k <= maxReps && r[i] == d.entries[d.countToken(k)]
  {
    var reps := ReplabelTable(d, maxReps);
    var r := Pack(tokens, reps);
    PackElements(tokens, reps);
    assert forall i :: 0 <= i < |r| && r[i] in reps ==>
      exists k :: 1 <= k <= maxReps && r[i] == d.entries[d.countToken(k)] by {
      forall i | 0 <= i < |r| && r[i] in reps
        ensures exists k :: 1 <= k <= maxReps && r[i] == d.entries[d.countToken(k)]
      {
        var k := ReplabelValue(reps, r[i]);
        assert r[i] == reps[k - 1] == d.entries[d.countToken(k)];
      }
    }
    r
  }

  // ---------------------------------------------------------------------------
  // Unpacking

  /**
    Scans s left to right, prev being the letter just read (None at the start
    and right after a count token). A letter is kept; a count token following
    a letter becomes that many further copies of the letter; a count token
    with no letter right before it is dropped.
  */
  function UnpackAfter(s: seq<int>, reps: seq<int>, prev: Option<int>): (r: seq<int>)
    decreases |s|
  {
    if s == [] then []
    else if s[0] in reps then
      (if prev.Some? then Repeat(prev.value, ReplabelValue(reps, s[0])) else [])
        + UnpackAfter(s[1..], reps, None)
    else
      [s[0]] + UnpackAfter(s[1..], reps, Some(s[0]))
  }

  /** Unpacking emits only letters: tokens of the input or the letter before it. */
  lemma {:induction false} UnpackElements(s: seq<int>, reps: seq<int>, prev: Option<int>)
    requires prev.Some? ==> prev.value !in reps
    ensures forall i :: 0 <= i < |UnpackAfter(s, reps, prev)| ==>
      var x := UnpackAfter(s, reps, prev)[i]; x !in reps && (x in s || prev == Some(x))
    decreases |s|
  {
    if s != [] {
      var next := if s[0] in reps then None else Some(s[0]);
      UnpackElements(s[1..], reps, next);
      var tail := UnpackAfter(s[1..], reps, next);
      var head := if s[0] !in reps then [s[0]]
        else if prev.Some? then Repeat(prev.value, ReplabelValue(reps, s[0])) else [];
      var r := UnpackAfter(s, reps, prev);
      assert r == head + tail;
      forall i | 0 <= i < |r| ensures r[i] !in reps && (r[i] in s || prev == Some(r[i])) {
        if i >= |head| {
          var x := tail[i - |head|];
          assert r[i] == x;
          if x in s[1..] {
            var j :| 0 <= j < |s[1..]| && s[1..][j] == x;
            assert s[j + 1] == x;
          } else {
            assert x == s[0];
          }
        }
      }
    }
  }

  /** Unpacking from the start: every emitted token is a letter of the input. */
  function Unpack(s: seq<int>, reps: seq<int>): (r: seq<int>)
    ensures forall i :: 0 <= i < |r| ==> r[i] !in reps && r[i] in s
  {
    UnpackElements(s, reps, None);
    UnpackAfter(s, reps, None)
  }

  /** `unpackReplabels`: unpacks with the count tokens that the dictionary holds for 1 .. maxReps. */
  function UnpackReplabels(tokens: seq<int>, d: Dictionary, maxReps: int): (r: seq<int>)
    requires CountTokensRegistered(d, maxReps)
    ensures forall i :: 0 <= i < |r| ==>
      r[i] in tokens && forall k :: 1 <= k <= maxReps ==> r[i] != d.entries[d.countToken(k)]
  {
    var reps := ReplabelTable(d, maxReps);
    var r := Unpack(tokens, reps);
    UnpackElements(tokens, reps, None);
    assert forall k :: 1 <= k <= maxReps ==> d.entries[d.countToken(k)] in reps by {
      forall k | 1 <= k <= maxReps ensures d.entries[d.countToken(k)] in reps {
        assert reps[k - 1] == d.entries[d.countToken(k)];
      }
    }
    r
  }

  // ---------------------------------------------------------------------------
  // Properties of packing

  /** A token repeated r + 1 times becomes the token and the count token for r. */
  lemma {:induction false} PackCollapsesRun(t: int, r: nat, rest: seq<int>, reps: seq<int>)
    requires 1 <= r <= |reps|
    requires r == |reps| || rest == [] || rest[0] != t
    ensures Pack(Repeat(t, r + 1) + rest, reps) == [t, reps[r - 1]] + Pack(rest, reps)
  {
    var s := Repeat(t, r + 1) + rest;
    var s1 := s[1..];
    assert forall i :: 0 <= i < r ==> s1[i] == t;
    assert |s1| == r + |rest|;
    assert r < |s1| ==> s1[r] == rest[0];
    var n := RunExtra(t, s1, |reps|);
    assert n == r;
    assert s[0] == t && s[n + 1..] == rest;
    assert Pack(s, reps) == [s[0], reps[n - 1]] + Pack(s[n + 1..], reps);
  }

  /** A token not repeated right after it passes through on its own. */
  lemma {:induction false} PackKeepsSingle(t: int, rest: seq<int>, reps: seq<int>)
    requires rest == [] || rest[0] != t
    ensures Pack([t] + rest, reps) == [t] + Pack(rest, reps)
  {
  }

  /** Only consecutive repeats are replaced: without them nothing changes. */
  lemma {:induction false} PackNoRepeatsIsIdentity(s: seq<int>, reps: seq<int>)
    requires NoAdjacentRepeats(s)
    ensures Pack(s, reps) == s
    decreases |s|
  {
    if s != [] {
      assert s == [s[0]] + s[1..];
      assert s[1..] == [] || s[1..][0] != s[0] by {
        if |s| > 1 { assert s[0] != s[1]; }
      }
      PackKeepsSingle(s[0], s[1..], reps);
      PackNoRepeatsIsIdentity(s[1..], reps);
    }
  }

  lemma {:induction false} NoAdjacentRepeatsCons(a: int, s: seq<int>)
    requires NoAdjacentRepeats(s) && (s == [] || a != s[0])
    ensures NoAdjacentRepeats([a] + s)
  {
  }

  /** With at least one count token, a packed letter sequence has no consecutive repeats left. */
  lemma {:induction false} PackedHasNoAdjacentRepeats(s: seq<int>, reps: seq<int>)
    requires |reps| >= 1 && NoReplabels(s, reps)
    ensures NoAdjacentRepeats(Pack(s, reps))
    decreases |s|
  {
    if s != [] {
      var t := s[0];
      var n := RunExtra(t, s[1..], |reps|);
      var rest := s[n + 1..];
      var tail := Pack(rest, reps);
      assert forall j :: 0 <= j < |rest| ==> rest[j] == s[n + 1 + j];
      PackedHasNoAdjacentRepeats(rest, reps);
      assert t !in reps;
      if n == 0 {
        assert rest != [] ==> tail[0] == rest[0] && rest[0] == s[1..][0] && s[1..][0] != t;
        NoAdjacentRepeatsCons(t, tail);
        assert Pack(s, reps) == [t] + tail;
      } else {
        assert rest != [] ==> tail[0] == rest[0] && rest[0] !in reps;
        NoAdjacentRepeatsCons(reps[n - 1], tail);
        NoAdjacentRepeatsCons(t, [reps[n - 1]] + tail);
        assert Pack(s, reps) == [t] + ([reps[n - 1]] + tail);
      }
    }
  }

  /** Packing a packed letter sequence again changes nothing. */
  lemma {:induction false} PackIdempotent(s: seq<int>, reps: seq<int>)
    requires NoReplabels(s, reps)
    ensures Pack(Pack(s, reps), reps) == Pack(s, reps)
  {
    if |reps| == 0 {
      PackWithoutTableIsIdentity(s, reps);
      PackWithoutTableIsIdentity(Pack(s, reps), reps);
    } else {
      PackedHasNoAdjacentRepeats(s, reps);
      PackNoRepeatsIsIdentity(Pack(s, reps), reps);
    }
  }

  /** With maxReps <= 0 there is no count token, and packing is the identity. */
  lemma {:induction false} PackWithoutTableIsIdentity(s: seq<int>, reps: seq<int>)
    requires |reps| == 0
    ensures Pack(s, reps) == s
    decreases |s|
  {
    if s != [] {
      PackWithoutTableIsIdentity(s[1..], reps);
    }
  }

  /** The three stages of the scan of "abbccc": the c-run, the b-run, then the single a. */
  lemma {:induction false} PackDocExampleRunC(c: int, reps: seq<int>)
    requires |reps| >= 2
    ensures Pack([c, c, c], reps) == [c, reps[1]]
  {
  }

  lemma {:induction false} PackDocExampleRunB(b: int, c: int, reps: seq<int>)
    requires |reps| >= 2 && b != c
    ensures Pack([b, b, c, c, c], reps) == [b, reps[0]] + Pack([c, c, c], reps)
  {
  }

  lemma {:induction false} PackDocExampleSingleA(a: int, b: int, c: int, reps: seq<int>)
    requires a != b
    ensures Pack([a, b, b, c, c, c], reps) == [a] + Pack([b, b, c, c, c], reps)
  {
  }

  /** "abbccc" packs to "ab1c2". */
  lemma {:induction false} PackDocExample(a: int, b: int, c: int, reps: seq<int>)
    requires |reps| >= 2 && a != b && b != c
    ensures Pack([a, b, b, c, c, c], reps) == [a, b, reps[0], c, reps[1]]
  {
    PackDocExampleRunC(c, reps);
    PackDocExampleRunB(b, c, reps);
    PackDocExampleSingleA(a, b, c, reps);
    assert [a] + ([b, reps[0]] + [c, reps[1]]) == [a, b, reps[0], c, reps[1]];
  }

  // ---------------------------------------------------------------------------
  // Properties of unpacking

  /** What comes before a letter does not matter to the rest of the unpacking. */
  lemma {:induction false} UnpackPrevIrrelevant(s: seq<int>, reps: seq<int>, p: Option<int>, q: Option<int>)
    requires p.Some? ==> p.value !in reps
    requires q.Some? ==> q.value !in reps
    requires s == [] || s[0] !in reps
    ensures UnpackAfter(s, reps, p) == UnpackAfter(s, reps, q)
  {
  }

  /** A letter followed by the count token for r becomes r + 1 copies of the letter. */
  lemma {:induction false} UnpackExpandsReplabel(t: int, r: nat, rest: seq<int>, reps: seq<int>)
    requires DistinctReplabels(reps) && 1 <= r <= |reps| && t !in reps
    ensures Unpack([t, reps[r - 1]] + rest, reps) == Repeat(t, r + 1) + Unpack(rest, reps)
  {
    var s := [t, reps[r - 1]] + rest;
    var s1 := s[1..];
    assert s[0] == t && s1 == [reps[r - 1]] + rest && s1[1..] == rest;
    assert Unpack(s, reps) == [t] + UnpackAfter(s1, reps, Some(t));
    ReplabelValueOf(reps, r);
    assert UnpackAfter(s1, reps, Some(t)) == Repeat(t, r) + Unpack(rest, reps);
    assert [t] + (Repeat(t, r) + Unpack(rest, reps)) == ([t] + Repeat(t, r)) + Unpack(rest, reps);
  }

  /** A letter not followed by a count token stays as it is. */
  lemma {:induction false} UnpackKeepsLetter(t: int, rest: seq<int>, reps: seq<int>)
    requires t !in reps && (rest == [] || rest[0] !in reps)
    ensures Unpack([t] + rest, reps) == [t] + Unpack(rest, reps)
  {
    assert ([t] + rest)[1..] == rest;
    UnpackPrevIrrelevant(rest, reps, Some(t), None);
  }

  /** A count token at the start, with no letter before it, is dropped. */
  lemma {:induction false} UnpackDropsOrphanCount(r: nat, rest: seq<int>, reps: seq<int>)
    requires 1 <= r <= |reps|
    ensures Unpack([reps[r - 1]] + rest, reps) == Unpack(rest, reps)
  {
    assert ([reps[r - 1]] + rest)[1..] == rest;
  }

  /** A count token right after another count token is dropped as well. */
  lemma {:induction false} UnpackDropsCountAfterCount(t: int, a: nat, b: nat, rest: seq<int>, reps: seq<int>)
    requires DistinctReplabels(reps) && 1 <= a <= |reps| && 1 <= b <= |reps| && t !in reps
    ensures Unpack([t, reps[a - 1], reps[b - 1]] + rest, reps) == Repeat(t, a + 1) + Unpack(rest, reps)
  {
    UnpackExpandsReplabel(t, a, [reps[b - 1]] + rest, reps);
    assert [t, reps[a - 1]] + ([reps[b - 1]] + rest) == [t, reps[a - 1], reps[b - 1]] + rest;
    UnpackDropsOrphanCount(b, rest, reps);
  }

  /** A sequence without count tokens unpacks to itself. */
  lemma {:induction false} UnpackLettersIsIdentity(s: seq<int>, reps: seq<int>)
    requires NoReplabels(s, reps)
    ensures Unpack(s, reps) == s
    decreases |s|
  {
    if s != [] {
      assert s == [s[0]] + s[1..];
      assert forall x :: x in s[1..] ==> x in s;
      assert s[0] in s && (s[1..] == [] || s[1..][0] in s);
      assert s[0] !in reps;
      assert s[1..] == [] || s[1..][0] !in reps;
      UnpackKeepsLetter(s[0], s[1..], reps);
      assert NoReplabels(s[1..], reps);
      UnpackLettersIsIdentity(s[1..], reps);
    }
  }

  /** "ab1c2" unpacks to "abbccc". */
  lemma {:induction false} UnpackDocExample(a: int, b: int, c: int, reps: seq<int>)
    requires DistinctReplabels(reps) && |reps| >= 2
    requires a !in reps && b !in reps && c !in reps
    ensures Unpack([a, b, reps[0], c, reps[1]], reps) == [a, b, b, c, c, c]
  {
    UnpackExpandsReplabel(c, 2, [], reps);
    assert [c, reps[1]] + [] == [c, reps[1]];
    assert Repeat(c, 3) + Unpack([], reps) == [c, c, c];
    UnpackExpandsReplabel(b, 1, [c, reps[1]], reps);
    assert [b, reps[0]] + [c, reps[1]] == [b, reps[0], c, reps[1]];
    assert Repeat(b, 2) + [c, c, c] == [b, b, c, c, c];
    UnpackKeepsLetter(a, [b, reps[0], c, reps[1]], reps);
  }

  // ---------------------------------------------------------------------------
  // The round trip

  /** A run opens s: its first token repeated n + 1 times, then the rest. */
  lemma {:induction false} RunSplit(s: seq<int>, cap: nat)
    requires s != []
    ensures var n := RunExtra(s[0], s[1..], cap); s == Repeat(s[0], n + 1) + s[n + 1..]
  {
  }

  /** Unpacking the head that packing emits for a run gives the run back. */
  lemma {:induction false} UnpackHead(t: int, n: nat, tail: seq<int>, reps: seq<int>)
    requires DistinctReplabels(reps) && n <= |reps| && t !in reps
    requires tail == [] || tail[0] !in reps
    ensures Unpack((if n == 0 then [t] else [t, reps[n - 1]]) + tail, reps) == Repeat(t, n + 1) + Unpack(tail, reps)
  {
    if n == 0 {
      UnpackKeepsLetter(t, tail, reps);
      assert Repeat(t, 1) == [t];
    } else {
      UnpackExpandsReplabel(t, n, tail, reps);
    }
  }

  /** Unpacking undoes packing for any sequence of letters. */
  lemma {:induction false} UnpackPack(s: seq<int>, reps: seq<int>)
    requires DistinctReplabels(reps) && NoReplabels(s, reps)
    ensures Unpack(Pack(s, reps), reps) == s
    decreases |s|
  {
    if s != [] {
      var t := s[0];
      var n := RunExtra(t, s[1..], |reps|);
      var rest := s[n + 1..];
      assert forall j :: 0 <= j < |rest| ==> rest[j] == s[n + 1 + j];
      UnpackPack(rest, reps);
      var tail := Pack(rest, reps);
      assert tail == [] || tail[0] !in reps by {
        if rest != [] { assert tail[0] == rest[0] == s[n + 1]; }
      }
      PackStep(s, reps);
      RunSplit(s, |reps|);
      UnpackHead(t, n, tail, reps);
    }
  }

  /**
    The round trip through the library functions: for a token sequence holding
    no count token, unpackReplabels(packReplabels(x)) == x.
  */
  lemma {:induction false} PackUnpackRoundTrip(tokens: seq<int>, d: Dictionary, maxReps: int)
    requires Valid(d) && CountTokensRegistered(d, maxReps) && CountTokensDistinct(d, maxReps)
    requires forall i, k :: 0 <= i < |tokens| && 1 <= k <= maxReps ==> tokens[i] != d.entries[d.countToken(k)]
    ensures UnpackReplabels(PackReplabels(tokens, d, maxReps), d, maxReps) == tokens
  {
    var reps := ReplabelTable(d, maxReps);
    ReplabelTableDistinct(d, maxReps);
    forall i | 0 <= i < |tokens| ensures tokens[i] !in reps {
      forall j | 0 <= j < |reps| ensures reps[j] != tokens[i] {
        assert reps[j] == d.entries[d.countToken(j + 1)];
      }
    }
    UnpackPack(tokens, reps);
  }
}
