/**
  From the spelling of a word to the token indices stored in the lexicon trie:
  `splitWrd` cuts a word into one token per character, and `tkn2Idx` looks
  every token up in the token dictionary and packs the result with replabels.
*/
module Spelling {

  import opened Wrappers
  import opened TokenDictionary
  import opened Replabels

  /** The pieces joined back together. */
  function Concat(pieces: seq<string>): string {
    if pieces == [] then [] else pieces[0] + Concat(pieces[1..])
  }

  /**
    `splitWrd`: one piece per character ("abc" gives "a", "b", "c"), and the
    pieces joined give the word back.
  */
  function SplitWrd(word: string): (pieces: seq<string>)
    ensures |pieces| == |word|
    ensures forall i :: 0 <= i < |word| ==> pieces[i] == [word[i]]
    ensures Concat(pieces) == word
  {
    if word == [] then []
    else
      var rest := SplitWrd(word[1..]);
      assert ([[word[0]]] + rest)[1..] == rest;
      [[word[0]]] + rest
  }

  /**
    `getIndex` applied to every token of a spelling, in order; None as soon as
    one of them is not in the dictionary.
  */
  function Indices(spelling: seq<string>, d: Dictionary): (r: Option<seq<int>>)
    ensures r.Some? <==> forall i :: 0 <= i < |spelling| ==> spelling[i] in d.entries
    ensures r.Some? ==> |r.value| == |spelling|
    ensures r.Some? ==> forall i :: 0 <= i < |spelling| ==> r.value[i] == d.entries[spelling[i]]
  {
    if spelling == [] then Some([])
    else
      var init := spelling[..|spelling| - 1];
      var last := spelling[|spelling| - 1];
      assert forall i :: 0 <= i < |init| ==> init[i] == spelling[i];
      match Indices(init, d)
      case None => None
      case Some(prefix) =>
        match GetIndex(d, last)
        case None => None
        case Some(index) => Some(prefix + [index])
  }

  /** Looking up one more token extends the looked-up prefix by its index. */
  lemma {:induction false} IndicesSnoc(init: seq<string>, last: string, d: Dictionary)
    requires Indices(init, d).Some? && last in d.entries
    ensures Indices(init + [last], d) == Some(Indices(init, d).value + [d.entries[last]])
  {
  }

  /**
    `tkn2Idx`: the spelling mapped to token indices and packed with the count
    tokens for 1 .. maxReps; None when a token of the spelling is not in the
    dictionary.
  */
  function Tkn2Idx(spelling: seq<string>, d: Dictionary, maxReps: int): (r: Option<seq<int>>)
    requires CountTokensRegistered(d, maxReps)
    ensures r.Some? <==> forall i :: 0 <= i < |spelling| ==> spelling[i] in d.entries
    ensures r.Some? ==> |r.value| <= |spelling|
  {
    match Indices(spelling, d)
    case None => None
    case Some(indices) => Some(PackReplabels(indices, d, maxReps))
  }

  /** tkn2Idx(spelling) == packReplabels(map(getIndex, spelling)). */
  lemma Tkn2IdxPacksIndices(spelling: seq<string>, d: Dictionary, maxReps: int)
    requires CountTokensRegistered(d, maxReps)
    requires forall i :: 0 <= i < |spelling| ==> spelling[i] in d.entries
    ensures Tkn2Idx(spelling, d, maxReps)
      == Some(PackReplabels(seq(|spelling|, i requires 0 <= i < |spelling| => d.entries[spelling[i]]), d, maxReps))
  {
    var indices := seq(|spelling|, i requires 0 <= i < |spelling| => d.entries[spelling[i]]);
    var looked := Indices(spelling, d).value;
    assert |looked| == |indices|;
    assert forall i :: 0 <= i < |indices| ==> looked[i] == indices[i];
    assert looked == indices;
  }

  /**
    The packed spelling of a word unpacks to the index of each of its tokens,
    provided no token of the spelling is itself a count token.
  */
  lemma Tkn2IdxUnpacks(spelling: seq<string>, d: Dictionary, maxReps: int)
    requires Valid(d) && CountTokensRegistered(d, maxReps) && CountTokensDistinct(d, maxReps)
    requires forall i :: 0 <= i < |spelling| ==> spelling[i] in d.entries
    requires forall i, k :: 0 <= i < |spelling| && 1 <= k <= maxReps ==> spelling[i] != d.countToken(k)
    ensures Tkn2Idx(spelling, d, maxReps).Some?
    ensures var indices := Indices(spelling, d).value;
      UnpackReplabels(Tkn2Idx(spelling, d, maxReps).value, d, maxReps) == indices
      && forall i :: 0 <= i < |spelling| ==> indices[i] == d.entries[spelling[i]]
  {
    var indices := Indices(spelling, d).value;
    forall i, k | 0 <= i < |indices| && 1 <= k <= maxReps
      ensures indices[i] != d.entries[d.countToken(k)]
    {
      assert indices[i] == d.entries[spelling[i]];
    }
    PackUnpackRoundTrip(indices, d, maxReps);
  }

  /** A dictionary holding the letters a, b, c and the count tokens "1" and "2". */
  function ExampleDict(): Dictionary {
    Dictionary(map["a" := 0, "b" := 1, "c" := 2, "1" := 3, "2" := 4],
               k => if k == 1 then "1" else "2")
  }

  lemma ExampleTable()
    ensures CountTokensRegistered(ExampleDict(), 2)
    ensures ReplabelTable(ExampleDict(), 2) == [3, 4]
  {
  }

  lemma {:induction false} ExampleSplit()
    ensures SplitWrd("abbccc") == ["a", "b", "b", "c", "c", "c"]
  {
  }

  lemma {:induction false} ExampleIndices(spelling: seq<string>, d: Dictionary)
    requires d == ExampleDict() && spelling == ["a", "b", "b", "c", "c", "c"]
    ensures Indices(spelling, d) == Some([0, 1, 1, 2, 2, 2])
  {
    assert forall i :: 0 <= i < 6 ==> spelling[i] in d.entries;
    var indices := Indices(spelling, d).value;
    assert indices[0] == d.entries["a"] == 0 && indices[1] == d.entries["b"] == 1;
    assert indices[2] == 1 && indices[3] == d.entries["c"] == 2;
    assert indices[4] == 2 && indices[5] == 2;
    assert indices == [0, 1, 1, 2, 2, 2];
  }

  lemma {:induction false} ExampleSpelling()
    ensures Indices(SplitWrd("abbccc"), ExampleDict()) == Some([0, 1, 1, 2, 2, 2])
  {
    ExampleSplit();
    ExampleIndices(SplitWrd("abbccc"), ExampleDict());
  }

  /** The header's packing example: the spelling of "abbccc" packs to "ab1c2". */
  lemma DocExamplePack()
    ensures CountTokensRegistered(ExampleDict(), 2)
    ensures Tkn2Idx(SplitWrd("abbccc"), ExampleDict(), 2) == Some([0, 1, 3, 2, 4])
  {
    ExampleTable();
    ExampleSpelling();
    PackDocExample(0, 1, 2, [3, 4]);
  }

  /** The header's unpacking example: "ab1c2" unpacks to "abbccc". */
  lemma DocExampleUnpack()
    ensures CountTokensRegistered(ExampleDict(), 2)
    ensures UnpackReplabels([0, 1, 3, 2, 4], ExampleDict(), 2) == [0, 1, 1, 2, 2, 2]
  {
    ExampleTable();
    UnpackDocExample(0, 1, 2, [3, 4]);
  }
}
