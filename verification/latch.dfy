/** The notify-once latch: the run-wide list of city names that have already
    been announced as approaching. A name enters the list at most once and is
    never removed from it. */
module Latch {

  /** No element of `s` occurs twice. */
  predicate NoDuplicates(s: seq<string>) {
    forall i, j :: 0 <= i < j < |s| ==> s[i] != s[j]
  }

  /** Appending a list that shares nothing with `a` keeps `a` free of duplicates. */
  lemma NoDuplicatesAppend(a: seq<string>, b: seq<string>)
    requires NoDuplicates(a) && NoDuplicates(b)
    requires forall x :: x in b ==> x !in a
    ensures NoDuplicates(a + b)
  {
    forall i, j | 0 <= i < j < |a + b|
      ensures (a + b)[i] != (a + b)[j]
    {
      if j < |a| {
        assert (a + b)[i] == a[i] && (a + b)[j] == a[j];
      } else if i < |a| {
        assert (a + b)[i] == a[i] && a[i] in a;
        assert (a + b)[j] == b[j - |a|] && b[j - |a|] in b;
      } else {
        assert (a + b)[i] == b[i - |a|] && (a + b)[j] == b[j - |a|];
      }
    }
  }

  /** The position of the first occurrence of `x` in `s`. */
  function FirstIndex(s: seq<string>, x: string): (k: nat)
    requires x in s
    ensures k < |s| && s[k] == x
    ensures x !in s[..k]
  {
    if s[0] == x then 0
    else
      var k := 1 + FirstIndex(s[1..], x);
      assert s[..k] == [s[0]] + s[1..][..k - 1];
      k
  }

  /** The notices fired for one point. `approaching` holds the names found
      within range at this point, in city-list order; each one that is not
      latched yet is announced and latched at once, so a name that occurs
      twice in `approaching` is announced once. The latch afterwards is
      `latched + Notify(latched, approaching)`. */
  function Notify(latched: seq<string>, approaching: seq<string>): (notices: seq<string>)
    ensures forall n :: n in notices <==> n in approaching && n !in latched
    ensures NoDuplicates(notices)
    ensures |notices| <= |approaching|
    decreases |approaching|
  {
    if approaching == [] then []
    else if approaching[0] in latched then Notify(latched, approaching[1..])
    else
      var rest := Notify(latched + [approaching[0]], approaching[1..]);
      NoDuplicatesAppend([approaching[0]], rest);
      [approaching[0]] + rest
  }

  /** Announcing two batches in turn is the same as announcing their
      concatenation: the latch carries over from one name to the next. */
  lemma {:induction false} NotifyConcat(latched: seq<string>, a: seq<string>, b: seq<string>)
    ensures Notify(latched, a + b) == Notify(latched, a) + Notify(latched + Notify(latched, a), b)
    decreases |a|, 1
  {
    if a == [] {
      assert a + b == b;
      assert latched + [] == latched;
    } else if a[0] in latched {
      NotifyConcatSkip(latched, a, b);
    } else {
      NotifyConcatFire(latched, a, b);
    }
  }

  /** `NotifyConcat` when the first name is already latched. */
  lemma {:induction false} NotifyConcatSkip(latched: seq<string>, a: seq<string>, b: seq<string>)
    requires a != [] && a[0] in latched
    ensures Notify(latched, a + b) == Notify(latched, a) + Notify(latched + Notify(latched, a), b)
    decreases |a|, 0
  {
    assert (a + b)[0] == a[0];
    assert (a + b)[1..] == a[1..] + b;
    NotifyConcat(latched, a[1..], b);
  }

  /** `NotifyConcat` when the first name fires. */
  lemma {:induction false} NotifyConcatFire(latched: seq<string>, a: seq<string>, b: seq<string>)
    requires a != [] && a[0] !in latched
    ensures Notify(latched, a + b) == Notify(latched, a) + Notify(latched + Notify(latched, a), b)
    decreases |a|, 0
  {
    assert (a + b)[0] == a[0];
    assert (a + b)[1..] == a[1..] + b;
    var latched' := latched + [a[0]];
    var front := Notify(latched', a[1..]);
    NotifyConcat(latched', a[1..], b);
    assert latched' + front == latched + ([a[0]] + front);
  }

  /** One name more: it is announced exactly when the latch, grown by the
      notices so far, does not hold it yet. */
  lemma NotifySnoc(latched: seq<string>, approaching: seq<string>, x: string)
    ensures Notify(latched, approaching + [x])
      == Notify(latched, approaching)
         + (if x in latched + Notify(latched, approaching) then [] else [x])
  {
    NotifyConcat(latched, approaching, [x]);
    assert [x][1..] == [];
  }

  /** A latch free of duplicates stays free of duplicates. */
  lemma NotifyKeepsUnique(latched: seq<string>, approaching: seq<string>)
    requires NoDuplicates(latched)
    ensures NoDuplicates(latched + Notify(latched, approaching))
  {
    NoDuplicatesAppend(latched, Notify(latched, approaching));
  }

  /** Notices come out in the order their names first occur in `approaching`. */
  lemma {:induction false} NotifyInOrder(latched: seq<string>, approaching: seq<string>)
    ensures forall a, b :: 0 <= a < b < |Notify(latched, approaching)| ==>
      FirstIndex(approaching, Notify(latched, approaching)[a])
        < FirstIndex(approaching, Notify(latched, approaching)[b])
    decreases |approaching|
  {
    if approaching != [] {
      var h, tail := approaching[0], approaching[1..];
      var notices := Notify(latched, approaching);
      if h in latched {
        NotifyInOrder(latched, tail);
        assert notices == Notify(latched, tail);
        forall a, b | 0 <= a < b < |notices|
          ensures FirstIndex(approaching, notices[a]) < FirstIndex(approaching, notices[b])
        {
          assert notices[a] in notices && notices[b] in notices;
          assert notices[a] != h && notices[b] != h;
        }
      } else {
        var rest := Notify(latched + [h], tail);
        NotifyInOrder(latched + [h], tail);
        assert notices == [h] + rest;
        forall a, b | 0 <= a < b < |notices|
          ensures FirstIndex(approaching, notices[a]) < FirstIndex(approaching, notices[b])
        {
          var y := rest[b - 1];
          assert notices[b] == y && y in rest && y != h;
          assert FirstIndex(approaching, y) == 1 + FirstIndex(tail, y);
          if a > 0 {
            var x := rest[a - 1];
            assert notices[a] == x && x in rest && x != h;
            assert FirstIndex(approaching, x) == 1 + FirstIndex(tail, x);
            assert FirstIndex(tail, x) < FirstIndex(tail, y);
          } else {
            assert notices[a] == h;
          }
        }
      }
    }
  }
}
