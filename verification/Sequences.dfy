// Facts about sequences that several modules use.
module Sequences {
  lemma Associates<T>(a: seq<T>, b: seq<T>, c: seq<T>)
    ensures (a + b) + c == a + (b + c)
  {
  }

  // Where a sequence has what is looked for.
  function Places<T>(s: seq<T>, good: T -> bool): set<int> {
    set i | 0 <= i < |s| && good(s[i])
  }

  lemma PlacesGrow<T>(s: seq<T>, good: T -> bool)
    requires s != []
    ensures var n := |s| - 1;
            |Places(s, good)| == |Places(s[..n], good)| + if good(s[n]) then 1 else 0
  {
    var n := |s| - 1;
    var front, last := Places(s[..n], good), if good(s[n]) then {n} else {};
    assert n !in front;
    assert Places(s, good) == front + last;
  }
}
