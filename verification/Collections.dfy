/** Vocabulary shared by the modules. */
module Collections {
  datatype Option<T> = None | Some(value: T)

  predicate NoDup<T(==)>(s: seq<T>) {
    forall i, j :: 0 <= i < j < |s| ==> s[i] != s[j]
  }

  function Bit(b: bool): nat {
    if b then 1 else 0
  }

  /** How often c occurs in s. */
  function Num<T(==)>(s: seq<T>, c: T): nat {
    if s == [] then 0 else Bit(s[0] == c) + Num(s[1..], c)
  }

  lemma {:induction false} NumUpdate<T>(s: seq<T>, k: nat, d: T, c: T)
    requires k < |s|
    ensures Num(s[k := d], c) == Num(s, c) - Bit(s[k] == c) + Bit(d == c)
    ensures Num(s, c) >= Bit(s[k] == c)
  {
    if k > 0 {
      NumUpdate(s[1..], k - 1, d, c);
      assert s[k := d][1..] == s[1..][k - 1 := d];
    } else {
      assert s[0 := d][1..] == s[1..];
    }
  }

  lemma {:induction false} NumAppend<T>(s: seq<T>, t: seq<T>, c: T)
    ensures Num(s + t, c) == Num(s, c) + Num(t, c)
  {
    if s == [] {
      assert s + t == t;
    } else {
      NumAppend(s[1..], t, c);
      assert (s + t)[1..] == s[1..] + t;
    }
  }
}
