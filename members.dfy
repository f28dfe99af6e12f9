/**
 * A room's member set. The source keeps a JavaScript `Set`, which iterates
 * (and `Array.from` lists) in insertion order; it is modelled as a sequence
 * without duplicates, so participant lists and broadcast order are those of
 * the source.
 */
module Members {

  ghost predicate Distinct<T>(s: seq<T>)
  {
    forall i, j :: 0 <= i < j < |s| ==> s[i] != s[j]
  }

  /** `Set.prototype.add`: a new element goes last, a present one stays put. */
  function Add<T(==,!new)>(s: seq<T>, x: T): (r: seq<T>)
    ensures x in r
    ensures forall y :: y in r <==> y in s || y == x
    ensures |s| <= |r| && r[..|s|] == s
    ensures x in s ==> |r| == |s|
    ensures Distinct(s) ==> Distinct(r)
  {
    if x in s then s else s + [x]
  }

  /** Where `x` first occurs in `s`. */
  function IndexOf<T(==)>(s: seq<T>, x: T): (i: nat)
    requires x in s
    ensures i < |s| && s[i] == x && x !in s[..i]
  {
    if s[0] == x then 0 else 1 + IndexOf(s[1..], x)
  }

  /** `Set.prototype.delete`: drops the element, keeps the order of the rest. */
  function Remove<T(==,!new)>(s: seq<T>, x: T): (r: seq<T>)
    ensures forall y :: y in r <==> y in s && y != x
    ensures x !in s ==> r == s
    ensures Distinct(s) ==> Distinct(r)
    ensures Distinct(s) && x in s ==> |r| == |s| - 1
    ensures Distinct(s) && x in s ==> r == s[..IndexOf(s, x)] + s[IndexOf(s, x) + 1..]
  {
    if s == [] then []
    else if s[0] == x then
      DistinctTail(s);
      Remove(s[1..], x)
    else
      var rest := Remove(s[1..], x);
      DistinctCons(s, rest);
      DistinctTail(s);
      if x in s[1..] then
        RemoveShift(s, x, rest);
        [s[0]] + rest
      else
        [s[0]] + rest
  }

  /** The tail of a set is a set, without its first element. */
  lemma DistinctTail<T>(s: seq<T>)
    requires s != []
    ensures Distinct(s) ==> Distinct(s[1..]) && s[0] !in s[1..]
  {
    if Distinct(s) {
      forall k | 0 <= k < |s| - 1 ensures s[1..][k] != s[0] {
        assert s[1..][k] == s[k + 1];
      }
    }
  }

  /** Removing from the tail at the position of `x` there is removing from
      the whole sequence at the next position. */
  lemma RemoveShift<T>(s: seq<T>, x: T, rest: seq<T>)
    requires s != [] && s[0] != x && x in s[1..]
    requires Distinct(s[1..]) ==> rest == s[1..][..IndexOf(s[1..], x)] + s[1..][IndexOf(s[1..], x) + 1..]
    ensures Distinct(s[1..]) ==> [s[0]] + rest == s[..IndexOf(s, x)] + s[IndexOf(s, x) + 1..]
  {
    if Distinct(s[1..]) {
      SpliceShift(s, IndexOf(s[1..], x), rest);
    }
  }

  lemma SpliceShift<T>(s: seq<T>, j: nat, rest: seq<T>)
    requires j + 1 < |s| && rest == s[1..][..j] + s[1..][j + 1..]
    ensures [s[0]] + rest == s[..j + 1] + s[j + 2..]
  {
    var t := s[1..];
    assert s[..j + 1] == [s[0]] + t[..j];
    assert s[j + 2..] == t[j + 1..];
  }

  /** Putting a set's first element back in front of a subset of its tail
      keeps the elements distinct. */
  lemma DistinctCons<T>(s: seq<T>, rest: seq<T>)
    requires s != []
    ensures Distinct(s) && Distinct(rest) && (forall y :: y in rest ==> y in s[1..])
      ==> Distinct([s[0]] + rest)
  {
    if Distinct(s) && Distinct(rest) && (forall y :: y in rest ==> y in s[1..]) {
      var t := [s[0]] + rest;
      forall i, j | 0 <= i < j < |t| ensures t[i] != t[j] {
        if i == 0 {
          assert t[j] == rest[j - 1];
          assert t[j] in s[1..];
        }
      }
    }
  }

  /** A sequence ending in an element not found earlier is a set when the
      rest is. */
  lemma DistinctSnoc<T>(s: seq<T>)
    requires s != []
    ensures Distinct(s) <==> Distinct(s[..|s| - 1]) && s[|s| - 1] !in s[..|s| - 1]
  {
    var init := s[..|s| - 1];
    if Distinct(s) {
      forall k | 0 <= k < |init| ensures init[k] != s[|s| - 1] {
        assert init[k] == s[k];
      }
    }
    if Distinct(init) && s[|s| - 1] !in init {
      forall i, j | 0 <= i < j < |s| ensures s[i] != s[j] {
        if j < |s| - 1 {
          assert s[i] == init[i] && s[j] == init[j];
        } else {
          assert s[i] == init[i];
        }
      }
    }
  }

  /** Emptying a set by removing one element means it held exactly that one. */
  lemma {:induction false} RemoveEmpty<T(!new)>(s: seq<T>, x: T)
    requires Distinct(s) && x in s
    ensures Remove(s, x) == [] <==> s == [x]
  {
    if Remove(s, x) == [] {
      assert |s| == 1;
      assert s[0] in s;
    }
  }
}
