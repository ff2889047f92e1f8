/** What the proofs about sequences and counts share. */
module Collections {

  function Elements<T>(s: seq<T>): set<T> {
    set x | x in s
  }

  function One(b: bool): nat {
    if b then 1 else 0
  }

  /** A sequence around one of its places. */
  lemma Around<T>(s: seq<T>, i: nat)
    requires i < |s|
    ensures s[..i + 1] == s[..i] + [s[i]] && s == s[..i] + [s[i]] + s[i + 1..]
    ensures s[i..][0] == s[i] && s[i..][1..] == s[i + 1..]
  {}

  /** A sequence with something put behind it, seen from its start. */
  lemma SnocCons<T>(s: seq<T>, x: T)
    requires s != []
    ensures (s + [x])[0] == s[0] && (s + [x])[1..] == s[1..] + [x]
  {}

  /** A sequence with something put in front of it, seen from its end. */
  lemma ConsSnoc<T>(x: T, s: seq<T>)
    requires s != []
    ensures var init, last := s[..|s| - 1], s[|s| - 1];
      init + [last] == s && ([x] + init) + [last] == [x] + s
  {}
}
