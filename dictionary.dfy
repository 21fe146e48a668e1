/**
  The token dictionary, an external collaborator of the replabel codec.

  The codec only ever asks it for the index of a token spelling (`getIndex`).
  It is modelled as a finite map from spellings to indices, together with the
  spelling of the count token of each repeat value k. The header comment of the
  codec spells these "1", "2", ..., to_string(maxReps), while the decoder test
  registers "<1>" instead; the model keeps the spelling abstract.
*/
module TokenDictionary {

  import opened Wrappers

  datatype Dictionary = Dictionary(entries: map<string, int>, countToken: int -> string)

  /** A token dictionary is a bijection: no two spellings share an index. */
  predicate Valid(d: Dictionary) {
    forall a, b :: a in d.entries && b in d.entries && d.entries[a] == d.entries[b] ==> a == b
  }

  /** `getIndex`: the index of a spelling, or None when it is not registered. */
  function GetIndex(d: Dictionary, token: string): (r: Option<int>)
    ensures r.Some? <==> token in d.entries
    ensures r.Some? ==> r.value == d.entries[token]
  {
    if token in d.entries then Some(d.entries[token]) else None
  }

  /** The count tokens for 1 .. maxReps are all present in the dictionary. */
  predicate CountTokensRegistered(d: Dictionary, maxReps: int) {
    forall k :: 1 <= k <= maxReps ==> d.countToken(k) in d.entries
  }

  /** The count tokens for 1 .. maxReps are spelled differently ("1" differs from "2"). */
  predicate CountTokensDistinct(d: Dictionary, maxReps: int) {
    forall a, b :: 1 <= a < b <= maxReps ==> d.countToken(a) != d.countToken(b)
  }
}
