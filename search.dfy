/** The "first element satisfying a predicate" search that resolution, rota
    selection and day selection use, in the manner of an iterator's `find`. */
module Search {
  import opened Schema

  /** `i` is the position of the first element of `s` that satisfies `p`. */
  ghost predicate IsFirst<T>(s: seq<T>, p: T -> bool, i: int)
  {
    0 <= i < |s| && p(s[i]) && forall j :: 0 <= j < i ==> !p(s[j])
  }

  /** The position of the first element satisfying `p`, or None when no element does. */
  function FindFirst<T>(s: seq<T>, p: T -> bool): (r: Option<nat>)
    ensures r.Some? ==> IsFirst(s, p, r.value)
    ensures r.None? <==> forall j :: 0 <= j < |s| ==> !p(s[j])
  {
    if |s| == 0 then None
    else if p(s[0]) then Some(0)
    else
      match FindFirst(s[1..], p)
      case None =>
        assert forall j :: 1 <= j < |s| ==> s[j] == s[1..][j - 1];
        None
      case Some(k) =>
        assert forall j :: 1 <= j <= k ==> s[j] == s[1..][j - 1];
        Some(k + 1)
  }

  /** Whenever some element satisfies `p`, the search finds exactly the first one. */
  lemma FindFirstIsFirst<T>(s: seq<T>, p: T -> bool, i: int)
    requires IsFirst(s, p, i)
    ensures FindFirst(s, p) == Some(i)
  {
  }

  /** Elements after a match are never consulted. */
  lemma FindFirstPrefix<T>(s: seq<T>, t: seq<T>, p: T -> bool, i: int)
    requires 0 <= i < |s| && p(s[i])
    ensures FindFirst(s + t, p) == FindFirst(s, p)
  {
    var k := FindFirst(s, p).value;
    assert IsFirst(s + t, p, k) by {
      assert forall j :: 0 <= j <= k ==> (s + t)[j] == s[j];
    }
    FindFirstIsFirst(s + t, p, k);
  }

  /** Inserting an element that fails `p` does not change which element is found. */
  lemma FindFirstSkip<T>(a: seq<T>, x: T, b: seq<T>, p: T -> bool)
    requires !p(x)
    ensures FindFirst(a + [x] + b, p).None? <==> FindFirst(a + b, p).None?
    ensures FindFirst(a + b, p).Some? ==>
              (a + [x] + b)[FindFirst(a + [x] + b, p).value] == (a + b)[FindFirst(a + b, p).value]
  {
    var s, t := a + b, a + [x] + b;
    assert forall j :: 0 <= j < |a| ==> s[j] == a[j] && t[j] == a[j];
    assert forall j :: |a| <= j < |s| ==> s[j] == b[j - |a|] && t[j + 1] == b[j - |a|];
    assert t[|a|] == x;
    match FindFirst(s, p)
    case None =>
      forall j | 0 <= j < |t| ensures !p(t[j]) {
        if j > |a| { assert t[j] == s[j - 1]; }
      }
    case Some(k) =>
      if k < |a| {
        assert IsFirst(t, p, k);
        FindFirstIsFirst(t, p, k);
      } else {
        assert IsFirst(t, p, k + 1) by {
          forall j | 0 <= j < k + 1 ensures !p(t[j]) {
            if j > |a| { assert t[j] == s[j - 1]; }
          }
        }
        FindFirstIsFirst(t, p, k + 1);
      }
  }
}
