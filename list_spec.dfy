/**
 * Reference definitions, on plain sequences of values, of what the linked
 * list operations do to the list's contents, and the facts about them that
 * the list's methods and their callers rely on.
 *
 * Each definition walks the sequence from the front, the way the list's
 * loops walk the nodes from `head`, and acts on the FIRST occurrence of the
 * value it looks for.
 */
module ListSpec {

  /** The position of the first occurrence of `x` in `s`. */
  function FirstIndex<T(==)>(s: seq<T>, x: T): (k: nat)
    requires x in s
    ensures k < |s| && s[k] == x
    ensures forall j | 0 <= j < k :: s[j] != x
  {
    if s[0] == x then 0 else 1 + FirstIndex(s[1..], x)
  }

  /** Any position before which `x` does not occur and at which it does is the first one. */
  lemma FirstIndexUnique<T>(s: seq<T>, x: T, i: nat)
    requires i < |s| && s[i] == x
    requires forall j | 0 <= j < i :: s[j] != x
    ensures FirstIndex(s, x) == i
  {
  }

  /**
   * `s` with `d` inserted right after the first occurrence of `target`;
   * `s` itself when `target` does not occur.
   */
  function InsertAfterFirst<T(==)>(s: seq<T>, target: T, d: T): (r: seq<T>)
    ensures |r| == if target in s then |s| + 1 else |s|
  {
    if s == [] then []
    else if s[0] == target then [s[0], d] + s[1..]
    else [s[0]] + InsertAfterFirst(s[1..], target, d)
  }

  /** `s` without the first occurrence of `k`; `s` itself when `k` does not occur. */
  function RemoveFirst<T(==)>(s: seq<T>, k: T): (r: seq<T>)
    ensures |r| == if k in s then |s| - 1 else |s|
  {
    if s == [] then []
    else if s[0] == k then s[1..]
    else [s[0]] + RemoveFirst(s[1..], k)
  }

  /**
   * When position `i` holds the first occurrence of `target`, the new value
   * sits right after it and nothing else moves.
   */
  lemma {:induction false} InsertAfterFirstAt<T>(s: seq<T>, target: T, d: T, i: nat)
    requires i < |s| && s[i] == target
    requires forall j | 0 <= j < i :: s[j] != target
    ensures InsertAfterFirst(s, target, d) == s[..i + 1] + [d] + s[i + 1..]
  {
    if i > 0 {
      InsertAfterFirstAt(s[1..], target, d, i - 1);
      assert s[..i + 1] == [s[0]] + s[1..][..i];
      assert s[i + 1..] == s[1..][i..];
    }
  }

  /** Inserting after a value that does not occur changes nothing. */
  lemma {:induction false} InsertAfterFirstAbsent<T>(s: seq<T>, target: T, d: T)
    requires target !in s
    ensures InsertAfterFirst(s, target, d) == s
  {
    if s != [] {
      assert target !in s[1..] by {
        forall j | 0 <= j < |s| - 1 ensures s[1..][j] != target {
          assert s[1..][j] == s[j + 1];
        }
      }
      InsertAfterFirstAbsent(s[1..], target, d);
    }
  }

  /** Inserting after `target` adds exactly one `d` when `target` occurs, and nothing otherwise. */
  lemma {:induction false} InsertAfterFirstMultiset<T>(s: seq<T>, target: T, d: T)
    ensures multiset(InsertAfterFirst(s, target, d))
         == if target in s then multiset(s) + multiset{d} else multiset(s)
  {
    if s != [] {
      assert s == [s[0]] + s[1..];
      if s[0] != target {
        InsertAfterFirstMultiset(s[1..], target, d);
        assert target in s <==> target in s[1..];
      }
    }
  }

  /**
   * When position `i` holds the first occurrence of `k`, exactly that element
   * is cut out and the rest keeps its order.
   */
  lemma {:induction false} RemoveFirstAt<T>(s: seq<T>, k: T, i: nat)
    requires i < |s| && s[i] == k
    requires forall j | 0 <= j < i :: s[j] != k
    ensures RemoveFirst(s, k) == s[..i] + s[i + 1..]
  {
    if i > 0 {
      RemoveFirstAt(s[1..], k, i - 1);
      assert s[..i] == [s[0]] + s[1..][..i - 1];
      assert s[i + 1..] == s[1..][i..];
    }
  }

  /** Removing a value that does not occur changes nothing. */
  lemma {:induction false} RemoveFirstAbsent<T>(s: seq<T>, k: T)
    requires k !in s
    ensures RemoveFirst(s, k) == s
  {
    if s != [] {
      assert k !in s[1..] by {
        forall j | 0 <= j < |s| - 1 ensures s[1..][j] != k {
          assert s[1..][j] == s[j + 1];
        }
      }
      RemoveFirstAbsent(s[1..], k);
    }
  }

  /** Removal takes away one occurrence of `k` (none when there is none) and keeps every other value. */
  lemma {:induction false} RemoveFirstMultiset<T>(s: seq<T>, k: T)
    ensures multiset(RemoveFirst(s, k)) == multiset(s) - multiset{k}
  {
    if s != [] {
      assert s == [s[0]] + s[1..];
      if s[0] != k {
        RemoveFirstMultiset(s[1..], k);
      }
    }
  }

  /** Deleting the value just inserted after `target` gives back the list, when that value was new. */
  lemma {:induction false} RemoveFirstUndoesInsertAfterFirst<T>(s: seq<T>, target: T, d: T)
    requires target in s && d !in s
    ensures RemoveFirst(InsertAfterFirst(s, target, d), d) == s
  {
    if s[0] != target {
      assert target in s[1..] && d !in s[1..] by {
        var i := FirstIndex(s, target);
        assert s[1..][i - 1] == target;
        forall j | 0 <= j < |s| - 1 ensures s[1..][j] != d {
          assert s[1..][j] == s[j + 1];
        }
      }
      RemoveFirstUndoesInsertAfterFirst(s[1..], target, d);
    } else {
      assert s[0] != d;
      assert d !in s[1..] by {
        forall j | 0 <= j < |s| - 1 ensures s[1..][j] != d {
          assert s[1..][j] == s[j + 1];
        }
      }
      assert RemoveFirst([d] + s[1..], d) == s[1..];
      assert InsertAfterFirst(s, target, d) == [s[0]] + ([d] + s[1..]);
    }
  }

  /** Deleting the value just appended gives back the list, when that value was new. */
  lemma {:induction false} RemoveFirstUndoesAppend<T>(s: seq<T>, d: T)
    requires d !in s
    ensures RemoveFirst(s + [d], d) == s
  {
    if s != [] {
      assert s[0] != d;
      assert (s + [d])[1..] == s[1..] + [d];
      assert d !in s[1..] by {
        forall j | 0 <= j < |s| - 1 ensures s[1..][j] != d {
          assert s[1..][j] == s[j + 1];
        }
      }
      RemoveFirstUndoesAppend(s[1..], d);
    }
  }
}
