/**
  The helper of the decoder test that turns a word into the key used to look
  it up in the lexicon trie: split the word, look every token up, and pack with
  one count token. The test registers that count token itself ("<1>").
*/
module DecoderTest {

  import opened Wrappers
  import opened TokenDictionary
  import opened Replabels
  import opened Spelling

  /**
    `tokens2Tensor`: the lookup key of a word, built token by token. It equals
    `tkn2Idx` of the word's character split with one count token.
  */
  method TokensToTensor(spelling: string, d: Dictionary) returns (r: Option<seq<int>>)
    requires CountTokensRegistered(d, 1)
    ensures r == Tkn2Idx(SplitWrd(spelling), d, 1)
  {
    var tokens := SplitWrd(spelling);
    var ret: seq<int> := [];
    var i := 0;
    while i < |tokens|
      invariant 0 <= i <= |tokens|
      invariant Indices(tokens[..i], d) == Some(ret)
    {
      var tkn := tokens[i];
      if tkn !in d.entries {
        assert Indices(tokens, d).None?;
        return None;
      }
      assert tokens[..i + 1] == tokens[..i] + [tkn];
      IndicesSnoc(tokens[..i], tkn, d);
      ret := ret + [d.entries[tkn]];
      i := i + 1;
    }
    assert tokens[..i] == tokens;
    assert Indices(tokens, d) == Some(ret);
    ret := PackReplabels(ret, d, 1);
    return Some(ret);
  }
}
