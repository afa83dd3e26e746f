/** Small helpers shared by the other modules. */
module Common {
  // Instants and spans of time are in microseconds.
  const SECOND := 1_000_000
  const MINUTE := 60_000_000
  const DAY := 86_400_000_000

  datatype Option<+T> = None | Some(value: T)

  /** Index of the first element satisfying p, or |s| if there is none: std::find over a list. */
  function IndexWhere<T>(s: seq<T>, p: T -> bool): (i: nat)
    ensures i <= |s|
    ensures forall j :: 0 <= j < i ==> !p(s[j])
    ensures i < |s| ==> p(s[i])
  {
    if s == [] || p(s[0]) then 0 else 1 + IndexWhere(s[1..], p)
  }

  /** The sequence without position i. */
  function Without<T>(s: seq<T>, i: nat): seq<T> {
    if i < |s| then s[..i] + s[i + 1..] else s
  }

  lemma Pick<T>(s: set<T>) returns (x: T)
    requires s != {}
    ensures x in s
  {
    x :| x in s;
  }

  /** A nonempty finite set of integers has a least element. */
  lemma {:induction false} LeastElement(s: set<int>) returns (least: int)
    requires s != {}
    ensures least in s && forall k :: k in s ==> least <= k
  {
    var k := Pick(s);
    var rest := s - {k};
    least := k;
    if rest != {} {
      var other := LeastElement(rest);
      least := if k < other then k else other;
    }
    assert forall j :: j in s ==> j == k || j in rest;
  }
}
