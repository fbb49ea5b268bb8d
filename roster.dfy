/**
 * The player records the radar publishes, their ordering, and the two
 * per-player display rules: the name label and the team colour.
 */
module Roster {

  newtype uint8 = x: int | 0 <= x < 256

  /** One entry of `playersData`; the name is kept as the bytes of its UTF-8 text. */
  datatype PlayerData = PlayerData(name: seq<uint8>, health: int, team: int, isAlive: bool, userId: int)

  /** The comparison given to `sort.SliceStable`: by team, then by user id. */
  predicate Less(p: PlayerData, q: PlayerData) {
    if p.team != q.team then p.team < q.team else p.userId < q.userId
  }

  /**
   * The comparison is a strict order on records, and two records are
   * unordered by it exactly when they have the same key.
   */
  lemma LessOrder(p: PlayerData, q: PlayerData, r: PlayerData)
    ensures !Less(p, p)
    ensures Less(p, q) ==> !Less(q, p)
    ensures Less(p, q) && Less(q, r) ==> Less(p, r)
    ensures !Less(p, q) && !Less(q, p) <==> SameKey(p, q)
  {
  }

  /** Two records the comparison cannot tell apart. */
  predicate SameKey(p: PlayerData, q: PlayerData) {
    p.team == q.team && p.userId == q.userId
  }

  /** Ordered by team ascending and, within a team, by user id ascending. */
  predicate Sorted(s: seq<PlayerData>) {
    forall i, j :: 0 <= i < j < |s| ==> !Less(s[j], s[i])
  }

  // ---------------------------------------------------------------------------
  // The sort, specified as insertion from the right

  /**
   * `x` placed after the longest suffix of `s` whose records all compare
   * greater than it, so that it lands after every record with its own key.
   */
  function Insert(s: seq<PlayerData>, x: PlayerData): (r: seq<PlayerData>)
    ensures |r| == |s| + 1
  {
    if |s| == 0 then [x]
    else if Less(x, s[|s| - 1]) then Insert(s[..|s| - 1], x) + [s[|s| - 1]]
    else s + [x]
  }

  /** The roster after the stable sort. */
  function SortedRoster(s: seq<PlayerData>): (r: seq<PlayerData>)
    ensures |r| == |s|
  {
    if |s| == 0 then [] else Insert(SortedRoster(s[..|s| - 1]), s[|s| - 1])
  }

  lemma {:induction false} InsertPermutes(s: seq<PlayerData>, x: PlayerData)
    ensures multiset(Insert(s, x)) == multiset(s) + multiset{x}
  {
    if |s| > 0 && Less(x, s[|s| - 1]) {
      var init := s[..|s| - 1];
      assert s == init + [s[|s| - 1]];
      InsertPermutes(init, x);
    }
  }

  /** The sorted roster holds the same records, each as often: a permutation. */
  lemma {:induction false} SortedRosterPermutes(s: seq<PlayerData>)
    ensures multiset(SortedRoster(s)) == multiset(s)
  {
    if |s| > 0 {
      var init := s[..|s| - 1];
      assert s == init + [s[|s| - 1]];
      SortedRosterPermutes(init);
      InsertPermutes(SortedRoster(init), s[|s| - 1]);
    }
  }

  lemma {:induction false} InsertSorted(s: seq<PlayerData>, x: PlayerData)
    requires Sorted(s)
    ensures Sorted(Insert(s, x))
  {
    if |s| > 0 && Less(x, s[|s| - 1]) {
      var init := s[..|s| - 1];
      var last := s[|s| - 1];
      InsertSorted(init, x);
      InsertPermutes(init, x);
      var r := Insert(s, x);
      assert r == Insert(init, x) + [last];
      forall i | 0 <= i < |r| - 1 ensures !Less(last, r[i]) {
        assert r[i] in multiset(Insert(init, x));
        assert r[i] == x || r[i] in init;
      }
    }
  }

  /** The sorted roster is ordered by (team, user id). */
  lemma {:induction false} SortedRosterSorted(s: seq<PlayerData>)
    ensures Sorted(SortedRoster(s))
  {
    if |s| > 0 {
      SortedRosterSorted(s[..|s| - 1]);
      InsertSorted(SortedRoster(s[..|s| - 1]), s[|s| - 1]);
    }
  }

  /** The records of `s` with the same key as `k`, in their order in `s`. */
  function WithKey(s: seq<PlayerData>, k: PlayerData): seq<PlayerData> {
    if |s| == 0 then []
    else WithKey(s[..|s| - 1], k) + (if SameKey(s[|s| - 1], k) then [s[|s| - 1]] else [])
  }

  lemma {:induction false} WithKeyConcat(a: seq<PlayerData>, b: seq<PlayerData>, k: PlayerData)
    ensures WithKey(a + b, k) == WithKey(a, k) + WithKey(b, k)
  {
    if |b| > 0 {
      var ab := a + b;
      assert ab[..|ab| - 1] == a + b[..|b| - 1];
      WithKeyConcat(a, b[..|b| - 1], k);
    } else {
      assert a + b == a;
    }
  }

  /** Inserting `x` adds it to its own key's records, after them, and leaves the other keys' records alone. */
  lemma {:induction false} InsertWithKey(s: seq<PlayerData>, x: PlayerData, k: PlayerData)
    ensures WithKey(Insert(s, x), k) == WithKey(s, k) + (if SameKey(x, k) then [x] else [])
  {
    if |s| > 0 && Less(x, s[|s| - 1]) {
      var init := s[..|s| - 1];
      var last := s[|s| - 1];
      InsertWithKey(init, x, k);
      WithKeyConcat(Insert(init, x), [last], k);
      assert WithKey([last], k) == (if SameKey(last, k) then [last] else []) by {
        assert [last][..0] == [];
      }
      if SameKey(last, k) {
        assert !SameKey(x, k);
      }
    } else {
      WithKeyConcat(s, [x], k);
      assert WithKey([x], k) == (if SameKey(x, k) then [x] else []) by {
        assert [x][..0] == [];
      }
    }
  }

  /** Stability: records with equal (team, user id) keep their relative order. */
  lemma {:induction false} SortedRosterStable(s: seq<PlayerData>, k: PlayerData)
    ensures WithKey(SortedRoster(s), k) == WithKey(s, k)
  {
    if |s| > 0 {
      var init := s[..|s| - 1];
      SortedRosterStable(init, k);
      InsertWithKey(SortedRoster(init), s[|s| - 1], k);
    }
  }

  /**
   * Any ordering of the same records that is sorted and keeps each key's
   * records in their original order is the sorted roster; so this is the
   * result of `sort.SliceStable`, whatever algorithm it runs.
   */
  lemma StableSortUnique(s: seq<PlayerData>, t: seq<PlayerData>)
    requires Sorted(t)
    requires forall k :: WithKey(t, k) == WithKey(s, k)
    ensures t == SortedRoster(s)
  {
    var r := SortedRoster(s);
    SortedRosterSorted(s);
    forall k ensures WithKey(t, k) == WithKey(r, k) {
      SortedRosterStable(s, k);
    }
    SortedSameKeysEqual(t, r);
  }

  /** Two sorted sequences with the same records per key are equal. */
  lemma {:induction false} SortedSameKeysEqual(t: seq<PlayerData>, u: seq<PlayerData>)
    requires Sorted(t) && Sorted(u)
    requires forall k :: WithKey(t, k) == WithKey(u, k)
    ensures t == u
    decreases |t| + |u|
  {
    SameKeysBothEmpty(t, u);
    if |t| > 0 {
      var x, y := t[|t| - 1], u[|u| - 1];
      var t', u' := t[..|t| - 1], u[..|u| - 1];
      assert WithKey(t, x) == WithKey(t', x) + [x];
      assert WithKey(u, y) == WithKey(u', y) + [y];
      // the last records carry the largest key of each side, so they share it
      LastHasMaxKey(u, x);
      LastHasMaxKey(t, y);
      assert SameKey(x, y);
      var w := WithKey(t, x);
      assert w == WithKey(u, x) == WithKey(u', x) + [y];
      assert w[|w| - 1] == x && w[|w| - 1] == y;
      forall k ensures WithKey(t', k) == WithKey(u', k) {
        var e := if SameKey(x, k) then [x] else [];
        assert WithKey(t', k) + e == WithKey(t, k) == WithKey(u, k) == WithKey(u', k) + e;
        assert WithKey(t', k) == (WithKey(t', k) + e)[..|WithKey(t', k)|];
      }
      SortedSameKeysEqual(t', u');
      assert t == t' + [x] && u == u' + [y];
    }
  }

  lemma SameKeysBothEmpty(t: seq<PlayerData>, u: seq<PlayerData>)
    requires forall k :: WithKey(t, k) == WithKey(u, k)
    ensures |t| == 0 <==> |u| == 0
  {
    if |u| > 0 {
      assert WithKey(t, u[|u| - 1]) != [];
    }
    if |t| > 0 {
      assert WithKey(u, t[|t| - 1]) != [];
    }
  }

  /** In a sorted sequence that holds a record with the key of `k`, the last record compares no lower than `k`. */
  lemma LastHasMaxKey(s: seq<PlayerData>, k: PlayerData)
    requires Sorted(s) && |s| > 0
    requires WithKey(s, k) != []
    ensures !Less(s[|s| - 1], k)
  {
    var i :| 0 <= i < |s| && SameKey(s[i], k) by {
      if forall i :: 0 <= i < |s| ==> !SameKey(s[i], k) {
        WithKeyNone(s, k);
      }
    }
  }

  lemma {:induction false} WithKeyNone(s: seq<PlayerData>, k: PlayerData)
    requires forall i :: 0 <= i < |s| ==> !SameKey(s[i], k)
    ensures WithKey(s, k) == []
  {
    if |s| > 0 {
      WithKeyNone(s[..|s| - 1], k);
    }
  }

  /** Within team 2 the lower user id comes first; team 3 follows, dead or alive. */
  lemma SortExample(a: PlayerData, b: PlayerData, c: PlayerData)
    requires a.team == 2 && a.userId == 7
    requires b.team == 2 && b.userId == 3
    requires c.team == 3 && c.userId == 1
    ensures SortedRoster([a, b, c]) == [b, a, c]
  {
    assert [a, b, c][..2] == [a, b] && [a, b][..1] == [a];
    assert SortedRoster([a, b]) == Insert([a], b) == [b, a];
  }

  /** Two records with one key keep their order around a record of a lower team. */
  lemma StableExample(a: PlayerData, b: PlayerData, c: PlayerData)
    requires a.team == 2 && a.userId == 5 && b.team == 2 && b.userId == 5
    requires c.team == 1
    ensures SortedRoster([a, c, b]) == [c, a, b]
  {
    assert [a, c, b][..2] == [a, c] && [a, c][..1] == [a];
    assert SortedRoster([a, c]) == Insert([a], c) == [c, a];
    assert Insert([c, a], b) == [c, a, b];
  }

  // ---------------------------------------------------------------------------
  // The in-place sort

  lemma SortedRosterPrefix(s: seq<PlayerData>, i: nat)
    requires i < |s|
    ensures SortedRoster(s[..i + 1]) == Insert(SortedRoster(s[..i]), s[i])
  {
    assert s[..i + 1][..i] == s[..i];
  }

  /** Where `Insert` puts `x`: after the last record of `p` that does not compare greater than it. */
  function InsertPos(p: seq<PlayerData>, x: PlayerData): (j: nat)
    ensures j <= |p|
  {
    if |p| == 0 || !Less(x, p[|p| - 1]) then |p| else InsertPos(p[..|p| - 1], x)
  }

  /** `Insert` slots `x` in at its position and moves nothing else. */
  lemma {:induction false} InsertAtPos(p: seq<PlayerData>, x: PlayerData)
    ensures Insert(p, x) == p[..InsertPos(p, x)] + [x] + p[InsertPos(p, x)..]
  {
    if |p| > 0 && Less(x, p[|p| - 1]) {
      var init := p[..|p| - 1];
      var j := InsertPos(init, x);
      InsertAtPos(init, x);
      assert init[..j] == p[..j];
      assert init[j..] + [p[|p| - 1]] == p[j..];
    }
  }

  /** One step of the shifting loop: a greater record at `j - 1` leaves the position further left. */
  lemma InsertPosShift(p: seq<PlayerData>, j: nat, x: PlayerData)
    requires 0 < j <= |p| && Less(x, p[j - 1])
    ensures InsertPos(p[..j], x) == InsertPos(p[..j - 1], x)
  {
    assert p[..j][..j - 1] == p[..j - 1];
  }

  /** Where the shifting loop stops is the position. */
  lemma InsertPosStop(p: seq<PlayerData>, j: nat, x: PlayerData)
    requires j <= |p| && (j == 0 || !Less(x, p[j - 1]))
    ensures InsertPos(p[..j], x) == j
  {
  }

  /** A sequence that holds `p` with `x` slotted in at `j` is that concatenation. */
  lemma Placed(q: seq<PlayerData>, p: seq<PlayerData>, j: nat, x: PlayerData)
    requires j <= |p| && |q| == |p| + 1
    requires forall k :: 0 <= k < j ==> q[k] == p[k]
    requires q[j] == x
    requires forall k :: j < k < |q| ==> q[k] == p[k - 1]
    ensures q == p[..j] + [x] + p[j..]
  {
  }

  /**
   * `sort.SliceStable` on the roster, as an insertion sort in place: the
   * array ends up holding the sorted roster of what it held.
   */
  method SortPlayers(a: array<PlayerData>)
    modifies a
    ensures a[..] == SortedRoster(old(a[..]))
  {
    ghost var s := a[..];
    for i := 0 to a.Length
      invariant a[..i] == SortedRoster(s[..i])
      invariant a[i..] == s[i..]
    {
      assert a[i] == s[i];
      InsertAt(a, i);
      SortedRosterPrefix(s, i);
      assert a[i + 1..] == s[i + 1..];
    }
    assert s[..a.Length] == s;
  }

  /**
   * One pass of the insertion sort: `a[i]` moves left past the records of
   * `a[..i]` that compare greater than it, each shifted one place right.
   */
  method InsertAt(a: array<PlayerData>, i: nat)
    requires i < a.Length
    modifies a
    ensures a[..i + 1] == Insert(old(a[..i]), old(a[i]))
    ensures forall k :: i < k < a.Length ==> a[k] == old(a[k])
  {
    ghost var p := a[..i];
    var x := a[i];
    var j := i;
    assert p[..j] == p;
    while j > 0 && Less(x, a[j - 1])
      invariant 0 <= j <= i
      invariant forall k :: 0 <= k < j ==> a[k] == p[k]
      invariant forall k :: j < k <= i ==> a[k] == p[k - 1]
      invariant forall k :: i < k < a.Length ==> a[k] == old(a[k])
      invariant InsertPos(p[..j], x) == InsertPos(p, x)
    {
      InsertPosShift(p, j, x);
      a[j] := a[j - 1];
      j := j - 1;
    }
    assert j > 0 ==> a[j - 1] == p[j - 1];
    InsertPosStop(p, j, x);
    a[j] := x;
    InsertAtPos(p, x);
    Placed(a[..i + 1], p, j, x);
  }

  // ---------------------------------------------------------------------------
  // Display rules

  /** The label drawn under a dot: names longer than 12 bytes keep 12 and gain "..". */
  function Label(name: seq<uint8>): (r: seq<uint8>)
    ensures |r| <= 14
    ensures |name| <= 12 ==> r == name
    ensures |name| > 12 ==> r == name[..12] + [46, 46]
  {
    if |name| > 12 then name[..12] + [46, 46] else name
  }

  /** A label is its own label: truncating once is enough. */
  lemma LabelIdempotent(name: seq<uint8>)
    ensures Label(Label(name)) == Label(name)
  {
    if |name| > 12 {
      var l := Label(name);
      assert l[..12] == name[..12];
    }
  }

  /** A label starts with the first bytes of the name, up to 12 of them. */
  lemma LabelPrefix(name: seq<uint8>)
    ensures var n := if |name| < 12 then |name| else 12; Label(name)[..n] == name[..n]
  {
  }

  datatype Rgba = Rgba(r: uint8, g: uint8, b: uint8, a: uint8)

  /** The colour of a team's dot: red for team 2, blue for team 3, the zero colour otherwise. */
  function TeamColor(team: int): (c: Rgba)
    ensures c.a == 255 <==> team == 2 || team == 3
    ensures team == 2 ==> c == Rgba(220, 60, 60, 255)
    ensures team == 3 ==> c == Rgba(60, 100, 220, 255)
    ensures team != 2 && team != 3 ==> c == Rgba(0, 0, 0, 0)
  {
    if team == 2 then Rgba(220, 60, 60, 255)
    else if team == 3 then Rgba(60, 100, 220, 255)
    else Rgba(0, 0, 0, 0)
  }

  /** The two teams get different colours, and every other team the same one. */
  lemma TeamColorDistinguishes(t: int, u: int)
    ensures TeamColor(t) == TeamColor(u) <==> t == u || (t != 2 && t != 3 && u != 2 && u != 3)
  {
  }

  /**
   * The colour a dot is filled with: the red, green and blue of the team
   * colour at full opacity, whatever that colour's own alpha. A player of
   * neither team is drawn opaque black.
   */
  function DotColor(team: int): (c: Rgba)
    ensures c.a == 255
    ensures c.r == TeamColor(team).r && c.g == TeamColor(team).g && c.b == TeamColor(team).b
    ensures team != 2 && team != 3 ==> c == Rgba(0, 0, 0, 255)
  {
    var t := TeamColor(team);
    Rgba(t.r, t.g, t.b, 255)
  }

  /** Dots of the two teams differ in colour, and every other team's dots look alike. */
  lemma DotColorDistinguishes(t: int, u: int)
    ensures DotColor(t) == DotColor(u) <==> t == u || (t != 2 && t != 3 && u != 2 && u != 3)
  {
  }
}
