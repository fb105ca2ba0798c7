/**
  The bot keeps its allow-list in a JavaScript `Set<string>`. Such a set holds each
  value once and remembers insertion order: spreading it (`[...set]`) yields the
  values oldest first. This module models that set as a duplicate-free sequence in
  iteration order, with the three operations the bot uses on it.
 */
module OrderedSet {

  /** The values of a sequence, forgetting order and repetition. */
  function Elements<T>(s: seq<T>): set<T> {
    set x | x in s
  }

  /** No value occurs twice: the shape every JavaScript `Set` has. */
  predicate NoDups<T(==)>(s: seq<T>) {
    forall i, j | 0 <= i < j < |s| :: s[i] != s[j]
  }

  /** `set.add(x)`: a new value goes last, an existing one keeps its place. */
  function Insert<T(==)>(s: seq<T>, x: T): (r: seq<T>)
    ensures Elements(r) == Elements(s) + {x}
    ensures |s| <= |r| <= |s| + 1 && r[..|s|] == s
    ensures NoDups(s) ==> NoDups(r)
  {
    if x in s then s else s + [x]
  }

  /** `set.delete(x)`: every other value stays, in its order. */
  function Delete<T(==)>(s: seq<T>, x: T): (r: seq<T>)
    ensures Elements(r) == Elements(s) - {x}
    ensures |r| <= |s|
    ensures NoDups(s) ==> NoDups(r)
  {
    if s == [] then []
    else
      var rest := Delete(s[1..], x);
      assert NoDups(s) ==> NoDups(s[1..]);
      assert s == [s[0]] + s[1..];
      ConsFacts(s[0], s[1..]);
      ConsFacts(s[0], rest);
      if s[0] == x then rest else [s[0]] + rest
  }

  /** Putting one value in front of a sequence. */
  lemma ConsFacts<T>(x: T, s: seq<T>)
    ensures Elements([x] + s) == {x} + Elements(s)
    ensures NoDups([x] + s) <==> x !in s && NoDups(s)
  {
    var t := [x] + s;
    assert forall k | 0 <= k < |s| :: t[k + 1] == s[k];
    if NoDups(t) {
      forall i, j | 0 <= i < j < |s| ensures s[i] != s[j] {
        assert t[i + 1] != t[j + 1];
      }
      forall k | 0 <= k < |s| ensures s[k] != x {
        assert t[0] != t[k + 1];
      }
    }
    if x !in s && NoDups(s) {
      forall i, j | 0 <= i < j < |t| ensures t[i] != t[j] {
        if i > 0 {
          assert t[i] == s[i - 1] && t[j] == s[j - 1];
        }
      }
    }
  }

  /** `new Set(values)`: the values are added one after the other, from the first. */
  function Dedup<T(==)>(s: seq<T>): (r: seq<T>)
    ensures Elements(r) == Elements(s)
    ensures NoDups(r)
    ensures |r| <= |s|
  {
    if s == [] then []
    else
      assert s == s[..|s| - 1] + [s[|s| - 1]];
      Insert(Dedup(s[..|s| - 1]), s[|s| - 1])
  }

  /** Adding a value that is already there changes nothing, so `add` is idempotent. */
  lemma InsertIdempotent<T>(s: seq<T>, x: T)
    ensures Insert(Insert(s, x), x) == Insert(s, x)
    ensures x in s ==> Insert(s, x) == s
  {
  }

  /** On a duplicate-free sequence, `delete` cuts out exactly the one entry that holds `x`. */
  lemma {:induction false} DeleteAt<T>(s: seq<T>, i: nat)
    requires NoDups(s) && i < |s|
    ensures Delete(s, s[i]) == s[..i] + s[i + 1..]
  {
    if i == 0 {
      DeleteAbsent(s[1..], s[0]);
      assert s[..0] + s[1..] == s[1..];
    } else {
      assert NoDups(s[1..]);
      assert s[1..][i - 1] == s[i];
      DeleteAt(s[1..], i - 1);
      assert s[..i] == [s[0]] + s[1..][..i - 1];
      assert s[i + 1..] == s[1..][i..];
    }
  }

  /** `delete` on a duplicate-free sequence, whether the value is there or not. */
  lemma DeleteShape<T>(s: seq<T>, x: T)
    requires NoDups(s)
    ensures forall i | 0 <= i < |s| && s[i] == x :: Delete(s, x) == s[..i] + s[i + 1..]
    ensures x !in s ==> Delete(s, x) == s
  {
    forall i | 0 <= i < |s| && s[i] == x
      ensures Delete(s, x) == s[..i] + s[i + 1..]
    {
      DeleteAt(s, i);
    }
    if x !in s {
      DeleteAbsent(s, x);
    }
  }

  /** Deleting a value that is absent changes nothing. */
  lemma {:induction false} DeleteAbsent<T>(s: seq<T>, x: T)
    requires x !in s
    ensures Delete(s, x) == s
  {
    if s != [] {
      DeleteAbsent(s[1..], x);
      assert s == [s[0]] + s[1..];
    }
  }

  /**
    Rebuilding a set from its own spread reproduces it in the same order: this is
    why reloading a persisted allow-list gives back the list that was saved.
   */
  lemma {:induction false} DedupOfNoDups<T>(s: seq<T>)
    ensures NoDups(s) ==> Dedup(s) == s
  {
    if s != [] && NoDups(s) {
      var init, last := s[..|s| - 1], s[|s| - 1];
      assert s == init + [last];
      assert NoDups(init) by {
        forall i, j | 0 <= i < j < |init| ensures init[i] != init[j] {
          assert init[i] == s[i] && init[j] == s[j];
        }
      }
      DedupOfNoDups(init);
      assert last !in init by {
        forall k | 0 <= k < |init| ensures init[k] != last {
          assert init[k] == s[k];
        }
      }
      calc {
        Dedup(s);
        Insert(Dedup(init), last);
        Insert(init, last);
        init + [last];
      }
    }
  }
}
