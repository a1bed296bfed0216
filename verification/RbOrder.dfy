/** The two key orders of the tree. The timer order compares wrapped differences, so it is an order
    only among keys that lie within half a cycle of one another. */
module RbOrder {
  import opened RbView

  const HALF: int := 0x8000_0000_0000_0000

  /** (ntg_rbtree_key_int_t) (a - b) < 0 on 64-bit words. */
  predicate TimerBefore(a: Key, b: Key) { (a - b) % WORD >= HALF }

  predicate Before(timer: bool, a: Key, b: Key) {
    if timer then TimerBefore(a, b) else a < b
  }

  /** How far k lies after w on the circle of words. */
  function Off(w: Key, k: Key): int { (k - w) % WORD }

  /** Every key is in the half cycle that starts at w. */
  ghost predicate InWindow(w: Key, ks: set<Key>) { forall k | k in ks :: Off(w, k) < HALF }

  /** Keys for which the chosen comparison is an order. */
  ghost predicate Comparable(timer: bool, ks: set<Key>) { timer ==> exists w: Key :: InWindow(w, ks) }

  lemma OffCases(w: Key, k: Key)
    ensures Off(w, k) == if k >= w then k - w else k - w + WORD
  {
    if k < w { assert (k - w + WORD) / WORD == 0; }
  }

  lemma DiffCases(a: Key, b: Key)
    ensures (a - b) % WORD == if a >= b then a - b else a - b + WORD
  {
    OffCases(b, a);
  }

  /** Inside a window the wrapped comparison is the comparison of distances from its start. */
  lemma TimerBeforeIsLinear(w: Key, a: Key, b: Key)
    requires Off(w, a) < HALF && Off(w, b) < HALF
    ensures TimerBefore(a, b) <==> Off(w, a) < Off(w, b)
  {
    OffCases(w, a);
    OffCases(w, b);
    DiffCases(a, b);
  }

  /** Outside a window it is not even transitive. */
  lemma TimerBeforeCycles()
    ensures TimerBefore(0, 1) && TimerBefore(1, HALF) && TimerBefore(HALF, HALF + 1) && TimerBefore(HALF + 1, 0)
  {
    DiffCases(0, 1);
    DiffCases(1, HALF);
    DiffCases(HALF, HALF + 1);
    DiffCases(HALF + 1, 0);
  }

  /** The wrapped comparison is a strict order on ks. */
  ghost predicate StrictOrder(ks: set<Key>)
  {
    && (forall a, b | a in ks && b in ks :: TimerBefore(a, b) ==> !TimerBefore(b, a))
    && (forall a, b, c | a in ks && b in ks && c in ks :: TimerBefore(a, b) && TimerBefore(b, c) ==> TimerBefore(a, c))
  }

  lemma {:induction false} EarliestExists(ks: set<Key>) returns (m: Key)
    requires StrictOrder(ks) && ks != {}
    ensures m in ks && forall k | k in ks :: !TimerBefore(k, m)
    decreases |ks|
  {
    var k :| k in ks;
    DiffCases(k, k);
    if ks == {k} {
      m := k;
    } else {
      var r := EarliestExists(ks - {k});
      m := if TimerBefore(k, r) then k else r;
    }
  }

  /** Exactly when the live keys lie in one half cycle is the timer order an order on them. */
  lemma TimerOrderNeedsWindow(ks: set<Key>)
    ensures StrictOrder(ks) <==> Comparable(true, ks)
  {
    if Comparable(true, ks) {
      forall a, b, c | a in ks && b in ks && c in ks
        ensures TimerBefore(a, b) ==> !TimerBefore(b, a)
        ensures TimerBefore(a, b) && TimerBefore(b, c) ==> TimerBefore(a, c)
      {
        var w: Key :| InWindow(w, ks);
        TimerBeforeIsLinear(w, a, b);
        TimerBeforeIsLinear(w, b, a);
        TimerBeforeIsLinear(w, b, c);
        TimerBeforeIsLinear(w, a, c);
      }
    }
    if StrictOrder(ks) {
      if ks == {} {
        assert InWindow(0, ks);
      } else {
        var m := EarliestExists(ks);
        forall k | k in ks ensures Off(m, k) < HALF {
          DiffCases(k, m);
          DiffCases(m, k);
        }
        assert InWindow(m, ks);
      }
    }
  }

  /** What the descent needs: a key before b goes before everything that is not before b, and a key
      not before b goes after everything that b is not before. */
  lemma BeforeIsOrder(timer: bool, ks: set<Key>, k: Key, b: Key, c: Key)
    requires Comparable(timer, ks) && k in ks && b in ks && c in ks
    ensures Before(timer, k, b) && !Before(timer, c, b) ==> Before(timer, k, c)
    ensures !Before(timer, k, b) && !Before(timer, b, c) ==> !Before(timer, k, c)
    ensures Before(timer, k, b) ==> !Before(timer, b, k)
  {
    if timer {
      var w: Key :| InWindow(w, ks);
      TimerBeforeIsLinear(w, k, b);
      TimerBeforeIsLinear(w, c, b);
      TimerBeforeIsLinear(w, b, c);
      TimerBeforeIsLinear(w, k, c);
      TimerBeforeIsLinear(w, b, k);
    }
  }

  ghost predicate Ascending(timer: bool, s: seq<Node>)
    reads s`key
  {
    forall i, j :: 0 <= i < j < |s| ==> !Before(timer, s[j].key, s[i].key)
  }

  /** key belongs at position k: after everything it is not before. */
  ghost predicate FitsAt(timer: bool, s: seq<Node>, key: Key, k: int)
    reads s`key
  {
    && 0 <= k <= |s|
    && (forall i :: 0 <= i < k ==> !Before(timer, key, s[i].key))
    && (forall i :: k <= i < |s| ==> Before(timer, key, s[i].key))
  }

  lemma FittingKeepsAscending(timer: bool, s: seq<Node>, n: Node, k: int, ks: set<Key>)
    requires Ascending(timer, s) && FitsAt(timer, s, n.key, k)
    requires Comparable(timer, ks + {n.key}) && forall m | m in s :: m.key in ks
    ensures Ascending(timer, s[..k] + [n] + s[k..])
  {
    var t := s[..k] + [n] + s[k..];
    forall i, j | 0 <= i < j < |t| ensures !Before(timer, t[j].key, t[i].key) {
      if i == k { BeforeIsOrder(timer, ks + {n.key}, n.key, t[j].key, n.key); }
    }
  }

  // ----- what the two orders are

  /** From their low 64 bits alone the wrapped comparison tells which of two instants less than half a cycle apart is
      the earlier one. */
  lemma TimerBeforeIsEarlier(a: int, b: int)
    requires -0x8000_0000_0000_0000 <= a - b < 0x8000_0000_0000_0000
    ensures TimerBefore(a % 0x1_0000_0000_0000_0000, b % 0x1_0000_0000_0000_0000) <==> a < b
  {
    SameWord(a, b);
  }

  /** Off counts from w around the circle. */
  lemma OffCounts(w: Key, d: int)
    requires 0 <= d < 0x1_0000_0000_0000_0000
    ensures Off(w, (w + d) % 0x1_0000_0000_0000_0000) == d
  {
    SameWord(w + d, w);
  }

  lemma SameWord(a: int, b: int)
    ensures (a % WORD - b % WORD) % WORD == (a - b) % WORD
  {
    var d := a % WORD - b % WORD;
    var q := a / WORD - b / WORD;
    assert a - b == d + q * WORD;
    WordsAside(d, q);
  }

  lemma {:induction false} WordsAside(d: int, q: int)
    ensures (d + q * WORD) % WORD == d % WORD
    decreases if q < 0 then -q else q
  {
    if q > 0 { WordsAside(d, q - 1); OneWord(d + (q - 1) * WORD); }
    if q < 0 { WordsAside(d, q + 1); OneWord(d + q * WORD); }
  }

  lemma OneWord(d: int)
    ensures (d + WORD) % WORD == d % WORD
  {
  }

  ghost predicate Rising(s: seq<Node>)
    reads s`key
  {
    forall i, j :: 0 <= i < j < |s| ==> s[i].key <= s[j].key
  }

  /** key goes behind every key that is not greater, and before every key that is. */
  ghost predicate PlaceOf(s: seq<Node>, key: Key, k: int)
    reads s`key
  {
    && 0 <= k <= |s|
    && (forall i :: 0 <= i < k ==> s[i].key <= key) && (forall i :: k <= i < |s| ==> key < s[i].key)
  }

  /** The same by the distance from w. */
  ghost predicate RisingFrom(w: Key, s: seq<Node>)
    reads s`key
  {
    forall i, j :: 0 <= i < j < |s| ==> Off(w, s[i].key) <= Off(w, s[j].key)
  }

  ghost predicate PlaceFrom(w: Key, s: seq<Node>, key: Key, k: int)
    reads s`key
  {
    && 0 <= k <= |s|
    && (forall i :: 0 <= i < k ==> Off(w, s[i].key) <= Off(w, key)) && (forall i :: k <= i < |s| ==> Off(w, key) < Off(w, s[i].key))
  }

  lemma ValueOrder(s: seq<Node>, key: Key, k: int)
    ensures Ascending(false, s) <==> Rising(s)
    ensures FitsAt(false, s, key, k) <==> PlaceOf(s, key, k)
  {
  }

  /** In the half cycle from w on, the timer order is the order of the distances from w. */
  lemma TimerOrder(w: Key, s: seq<Node>, key: Key, k: int)
    requires Off(w, key) < HALF && forall n | n in s :: Off(w, n.key) < HALF
    ensures Ascending(true, s) <==> RisingFrom(w, s)
    ensures FitsAt(true, s, key, k) <==> PlaceFrom(w, s, key, k)
  {
    forall i, j | 0 <= i < j < |s| ensures TimerBefore(s[j].key, s[i].key) <==> Off(w, s[j].key) < Off(w, s[i].key) {
      TimerBeforeIsLinear(w, s[j].key, s[i].key);
    }
    forall i | 0 <= i < |s| ensures TimerBefore(key, s[i].key) <==> Off(w, key) < Off(w, s[i].key) {
      TimerBeforeIsLinear(w, key, s[i].key);
    }
  }
}
