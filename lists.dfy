/** The `List<T>` operations the grid uses, on sequences. */
module Lists {

  /** `List.IndexOf(x)`: the first position holding x, or -1 when there is none. */
  function IndexOf<T(==)>(s: seq<T>, x: T): (k: int)
    ensures -1 <= k < |s|
    ensures k < 0 <==> x !in s
    ensures k >= 0 ==> s[k] == x && x !in s[..k]
  {
    if |s| == 0 then -1
    else if s[0] == x then 0
    else
      var k := IndexOf(s[1..], x);
      assert k >= 0 ==> s[..k + 1] == [s[0]] + s[1..][..k];
      if k < 0 then -1 else k + 1
  }

  /**
   * `List.Remove(x)`: the list without its first element equal to x, the others in their
   * order; the list itself when no element equals x.
   */
  function Remove<T(==)>(s: seq<T>, x: T): (r: seq<T>)
    ensures x !in s ==> r == s
    ensures x in s ==> |r| == |s| - 1
    ensures multiset(r) == multiset(s) - multiset{x}
    ensures x in s ==> forall j :: 0 <= j < |r| ==> r[j] == if j < IndexOf(s, x) then s[j] else s[j + 1]
  {
    var k := IndexOf(s, x);
    if k < 0 then
      assert x !in multiset(s);
      s
    else
      assert s == s[..k] + [s[k]] + s[k + 1..];
      s[..k] + s[k + 1..]
  }
}
