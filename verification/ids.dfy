/** Fresh document ids. MongoDB generates a new ObjectId for every inserted
    document; the model picks one more than the largest id in use. */
module Ids {

  function MaxId<T>(s: seq<T>, id: T -> nat): (r: nat)
    ensures forall k :: 0 <= k < |s| ==> id(s[k]) <= r
  {
    if |s| == 0 then 0
    else
      var m := MaxId(s[..|s| - 1], id);
      assert forall k :: 0 <= k < |s| - 1 ==> s[..|s| - 1][k] == s[k];
      if id(s[|s| - 1]) > m then id(s[|s| - 1]) else m
  }

  function FreshId<T>(s: seq<T>, id: T -> nat): (r: nat)
    ensures forall k :: 0 <= k < |s| ==> id(s[k]) != r
  {
    MaxId(s, id) + 1
  }
}
