/** Strictly key-ordered tables and their merge: the `BTreeMap` and `BTreeSet` round trips of
    src/contract/compose.rs, for any key order and any partial join of two equal-keyed rows. */
module Tables {
  import opened Wrappers

  datatype Schema<!V, !K(==,!new)> = Schema(key: V -> K, less: (K, K) -> bool)
  {
    /** `less` is a strict total order on the keys. */
    ghost predicate Valid() {
      && (forall a :: !less(a, a))
      && (forall a, b :: a == b || less(a, b) || less(b, a))
      && (forall a, b, c :: less(a, b) && less(b, c) ==> less(a, c))
    }
  }

  predicate Sorted<V, K(==,!new)>(sc: Schema<V, K>, t: seq<V>) {
    forall i, j :: 0 <= i < j < |t| ==> sc.less(sc.key(t[i]), sc.key(t[j]))
  }

  function Lookup<V, K(==,!new)>(sc: Schema<V, K>, t: seq<V>, k: K): Option<V> {
    if t == [] then None
    else if sc.key(t[0]) == k then Some(t[0])
    else Lookup(sc, t[1..], k)
  }

  /** One `BTreeMap::entry` step: insert a new row, or join it with the row of the same key. */
  function Put<V, K(==,!new)>(sc: Schema<V, K>, join: (V, V) -> Option<V>, t: seq<V>, v: V): Option<seq<V>> {
    if t == [] then Some([v])
    else if sc.key(v) == sc.key(t[0]) then
      match join(t[0], v)
      case Some(w) => Some([w] + t[1..])
      case None => None
    else if sc.less(sc.key(v), sc.key(t[0])) then Some([v] + t)
    else
      match Put(sc, join, t[1..], v)
      case Some(u) => Some([t[0]] + u)
      case None => None
  }

  function PutAll<V, K(==,!new)>(sc: Schema<V, K>, join: (V, V) -> Option<V>, t: seq<V>, rows: seq<V>): Option<seq<V>>
    decreases rows
  {
    if rows == [] then Some(t)
    else
      match Put(sc, join, t, rows[0])
      case Some(u) => PutAll(sc, join, u, rows[1..])
      case None => None
  }

  function Merge<V, K(==,!new)>(sc: Schema<V, K>, join: (V, V) -> Option<V>, left: seq<V>,
      right: seq<V>): Option<seq<V>> {
    PutAll(sc, join, [], left + right)
  }

  /** The join of tables whose equal-keyed rows must be identical. */
  function SameRow<V(==)>(a: V, b: V): Option<V> {
    if a == b then Some(a) else None
  }

  /** The rows that two tables hold for one key can be joined. */
  predicate Agree<V>(join: (V, V) -> Option<V>, a: Option<V>, b: Option<V>) {
    a.Some? && b.Some? ==> join(a.value, b.value).Some?
  }

  function JoinRow<V>(join: (V, V) -> Option<V>, a: Option<V>, b: Option<V>): Option<V> {
    if a.None? then b else if b.None? then a else join(a.value, b.value)
  }

  ghost predicate KeepsKey<V(!new), K(!new)>(sc: Schema<V, K>, join: (V, V) -> Option<V>) {
    forall a, b :: sc.key(a) == sc.key(b) && join(a, b).Some? ==> sc.key(join(a, b).value) == sc.key(a)
  }

  /** `join` is a partial join on the rows that satisfy `ok`. */
  ghost predicate Laws<V(!new), K(!new)>(sc: Schema<V, K>, ok: V -> bool, join: (V, V) -> Option<V>) {
    && KeepsKey(sc, join)
    && (forall a :: ok(a) ==> join(a, a) == Some(a))
    && (forall a, b :: ok(a) && ok(b) && sc.key(a) == sc.key(b) ==>
          join(a, b) == join(b, a) && (join(a, b).Some? ==> ok(join(a, b).value)))
    && (forall a, b, c :: ok(a) && ok(b) && ok(c) && sc.key(a) == sc.key(b) == sc.key(c) ==>
          JoinLeft(join, a, b, c) == JoinRight(join, a, b, c))
  }

  function JoinLeft<V>(join: (V, V) -> Option<V>, a: V, b: V, c: V): Option<V> {
    match join(a, b) case Some(x) => join(x, c) case None => None
  }

  function JoinRight<V>(join: (V, V) -> Option<V>, a: V, b: V, c: V): Option<V> {
    match join(b, c) case Some(x) => join(a, x) case None => None
  }

  // ----- rows and look-ups ---------------------------------------------------------------

  lemma {:induction false} LookupFinds<V, K(!new)>(sc: Schema<V, K>, t: seq<V>, k: K)
    ensures Lookup(sc, t, k).Some? ==> Lookup(sc, t, k).value in t && sc.key(Lookup(sc, t, k).value) == k
    ensures Lookup(sc, t, k).None? ==> forall v :: v in t ==> sc.key(v) != k
  {
    if t != [] {
      LookupFinds(sc, t[1..], k);
      assert t == [t[0]] + t[1..];
    }
  }

  lemma {:induction false} LookupSorted<V, K(!new)>(sc: Schema<V, K>, t: seq<V>, v: V)
    requires sc.Valid() && Sorted(sc, t) && v in t
    ensures Lookup(sc, t, sc.key(v)) == Some(v)
  {
    if v != t[0] {
      assert v in t[1..];
      LookupSorted(sc, t[1..], v);
    }
  }

  /** A sorted table is determined by its look-ups. */
  lemma {:induction false} Extensional<V, K(!new)>(sc: Schema<V, K>, s: seq<V>, t: seq<V>)
    requires sc.Valid() && Sorted(sc, s) && Sorted(sc, t)
    requires forall k :: Lookup(sc, s, k) == Lookup(sc, t, k)
    ensures s == t
  {
    if s != [] { assert Lookup(sc, s, sc.key(s[0])) == Some(s[0]); }
    if t != [] { assert Lookup(sc, t, sc.key(t[0])) == Some(t[0]); }
    if s != [] && t != [] {
      var a, b := sc.key(s[0]), sc.key(t[0]);
      LookupFinds(sc, s, b);
      LookupFinds(sc, t, a);
      assert Lookup(sc, s, a) == Some(s[0]) && Lookup(sc, t, b) == Some(t[0]);
      assert s[0] == t[0];
      forall k ensures Lookup(sc, s[1..], k) == Lookup(sc, t[1..], k) {
        assert Lookup(sc, s, k) == Lookup(sc, t, k);
        if k == a {
          LookupFinds(sc, s[1..], k);
          LookupFinds(sc, t[1..], k);
        }
      }
      Extensional(sc, s[1..], t[1..]);
    }
  }

  // ----- merging -------------------------------------------------------------------------

  lemma {:induction false} PutSpec<V(!new), K(!new)>(sc: Schema<V, K>, join: (V, V) -> Option<V>, t: seq<V>, v: V)
    requires sc.Valid() && KeepsKey(sc, join) && Sorted(sc, t)
    ensures Put(sc, join, t, v).Some? <==> Agree(join, Lookup(sc, t, sc.key(v)), Some(v))
    ensures Put(sc, join, t, v).Some? ==>
              var u := Put(sc, join, t, v).value;
              && Sorted(sc, u)
              && (forall w :: w in u ==> w in t || sc.key(w) == sc.key(v))
              && (forall k :: Lookup(sc, u, k) ==
                    if k == sc.key(v) then JoinRow(join, Lookup(sc, t, k), Some(v)) else Lookup(sc, t, k))
  {
    if t != [] {
      var k := sc.key(v);
      if k == sc.key(t[0]) {
        LookupFinds(sc, t, k);
      } else if sc.less(k, sc.key(t[0])) {
        LookupFinds(sc, t, k);
        assert ([v] + t)[1..] == t;
      } else {
        PutSpec(sc, join, t[1..], v);
        if Put(sc, join, t[1..], v).Some? {
          var u := Put(sc, join, t[1..], v).value;
          assert ([t[0]] + u)[1..] == u;
        }
      }
    }
  }

  lemma {:induction false} PutAllSpec<V(!new), K(!new)>(sc: Schema<V, K>, join: (V, V) -> Option<V>, t: seq<V>,
      rows: seq<V>)
    requires sc.Valid() && KeepsKey(sc, join) && Sorted(sc, t) && Sorted(sc, rows)
    ensures PutAll(sc, join, t, rows).Some? ==> forall k :: Agree(join, Lookup(sc, t, k), Lookup(sc, rows, k))
    ensures (forall k :: Agree(join, Lookup(sc, t, k), Lookup(sc, rows, k))) ==> PutAll(sc, join, t, rows).Some?
    ensures PutAll(sc, join, t, rows).Some? ==>
              var u := PutAll(sc, join, t, rows).value;
              Sorted(sc, u) && forall k :: Lookup(sc, u, k) == JoinRow(join, Lookup(sc, t, k), Lookup(sc, rows, k))
    decreases rows
  {
    if rows != [] {
      var v := rows[0];
      PutSpec(sc, join, t, v);
      LookupSorted(sc, rows, v);
      LookupFinds(sc, rows[1..], sc.key(v));
      if Put(sc, join, t, v).Some? {
        var u := Put(sc, join, t, v).value;
        PutAllSpec(sc, join, u, rows[1..]);
        assert forall k :: k != sc.key(v) ==> Lookup(sc, rows, k) == Lookup(sc, rows[1..], k);
        if PutAll(sc, join, t, rows).Some? {
          forall k ensures Agree(join, Lookup(sc, t, k), Lookup(sc, rows, k)) {
            assert Agree(join, Lookup(sc, u, k), Lookup(sc, rows[1..], k));
          }
        } else {
          var k :| !Agree(join, Lookup(sc, u, k), Lookup(sc, rows[1..], k));
          assert !Agree(join, Lookup(sc, t, k), Lookup(sc, rows, k));
        }
      } else {
        assert !Agree(join, Lookup(sc, t, sc.key(v)), Lookup(sc, rows, sc.key(v)));
      }
    }
  }

  lemma {:induction false} PutAllAppend<V, K(!new)>(sc: Schema<V, K>, join: (V, V) -> Option<V>, t: seq<V>,
      a: seq<V>, b: seq<V>)
    ensures PutAll(sc, join, t, a + b) ==
            match PutAll(sc, join, t, a) case Some(u) => PutAll(sc, join, u, b) case None => None
    decreases a
  {
    if a == [] {
      assert a + b == b;
    } else {
      assert (a + b)[0] == a[0] && (a + b)[1..] == a[1..] + b;
      match Put(sc, join, t, a[0])
      case Some(u) => PutAllAppend(sc, join, u, a[1..], b);
      case None =>
    }
  }

  /** Merging two sorted tables succeeds exactly when every shared key can be joined, and the
      result is the sorted table of the row-wise joins. */
  lemma MergeSpec<V(!new), K(!new)>(sc: Schema<V, K>, join: (V, V) -> Option<V>, left: seq<V>, right: seq<V>)
    requires sc.Valid() && KeepsKey(sc, join) && Sorted(sc, left) && Sorted(sc, right)
    ensures Merge(sc, join, left, right).Some? ==> forall k :: Agree(join, Lookup(sc, left, k), Lookup(sc, right, k))
    ensures (forall k :: Agree(join, Lookup(sc, left, k), Lookup(sc, right, k))) ==> Merge(sc, join, left, right).Some?
    ensures Merge(sc, join, left, right).Some? ==>
              var u := Merge(sc, join, left, right).value;
              Sorted(sc, u) && forall k :: Lookup(sc, u, k) == JoinRow(join, Lookup(sc, left, k), Lookup(sc, right, k))
  {
    PutAllAppend(sc, join, [], left, right);
    PutAllSpec(sc, join, [], left);
    Extensional(sc, PutAll(sc, join, [], left).value, left);
    PutAllSpec(sc, join, left, right);
  }

  /** The same, at one key. */
  lemma MergeAt<V(!new), K(!new)>(sc: Schema<V, K>, join: (V, V) -> Option<V>, left: seq<V>, right: seq<V>,
      u: seq<V>, k: K)
    requires sc.Valid() && KeepsKey(sc, join) && Sorted(sc, left) && Sorted(sc, right)
    requires Merge(sc, join, left, right) == Some(u)
    ensures Sorted(sc, u) && Agree(join, Lookup(sc, left, k), Lookup(sc, right, k))
    ensures Lookup(sc, u, k) == JoinRow(join, Lookup(sc, left, k), Lookup(sc, right, k))
  {
    MergeSpec(sc, join, left, right);
  }

  lemma MergeCommutes<V(!new), K(!new)>(sc: Schema<V, K>, ok: V -> bool, join: (V, V) -> Option<V>,
      left: seq<V>, right: seq<V>)
    requires sc.Valid() && Laws(sc, ok, join) && Sorted(sc, left) && Sorted(sc, right)
    requires (forall v :: v in left ==> ok(v)) && (forall v :: v in right ==> ok(v))
    ensures Merge(sc, join, left, right) == Merge(sc, join, right, left)
  {
    MergeSpec(sc, join, left, right);
    MergeSpec(sc, join, right, left);
    forall k
      ensures Agree(join, Lookup(sc, left, k), Lookup(sc, right, k))
           == Agree(join, Lookup(sc, right, k), Lookup(sc, left, k))
      ensures JoinRow(join, Lookup(sc, left, k), Lookup(sc, right, k))
           == JoinRow(join, Lookup(sc, right, k), Lookup(sc, left, k))
    {
      LookupFinds(sc, left, k);
      LookupFinds(sc, right, k);
    }
    if Merge(sc, join, left, right).Some? {
      Extensional(sc, Merge(sc, join, left, right).value, Merge(sc, join, right, left).value);
    }
  }

  lemma MergeIdempotent<V(!new), K(!new)>(sc: Schema<V, K>, ok: V -> bool, join: (V, V) -> Option<V>, t: seq<V>)
    requires sc.Valid() && Laws(sc, ok, join) && Sorted(sc, t)
    requires forall v :: v in t ==> ok(v)
    ensures Merge(sc, join, t, t) == Some(t)
  {
    MergeSpec(sc, join, t, t);
    forall k ensures Agree(join, Lookup(sc, t, k), Lookup(sc, t, k))
             ensures JoinRow(join, Lookup(sc, t, k), Lookup(sc, t, k)) == Lookup(sc, t, k)
    {
      LookupFinds(sc, t, k);
    }
    Extensional(sc, Merge(sc, join, t, t).value, t);
  }

  function MergeLeft<V, K(==,!new)>(sc: Schema<V, K>, join: (V, V) -> Option<V>, a: seq<V>, b: seq<V>,
      c: seq<V>): Option<seq<V>> {
    match Merge(sc, join, a, b) case Some(x) => Merge(sc, join, x, c) case None => None
  }

  function MergeRight<V, K(==,!new)>(sc: Schema<V, K>, join: (V, V) -> Option<V>, a: seq<V>, b: seq<V>,
      c: seq<V>): Option<seq<V>> {
    match Merge(sc, join, b, c) case Some(x) => Merge(sc, join, a, x) case None => None
  }

  /** Every row of a merge satisfies `ok` when the rows of both sides do. */
  lemma MergeOk<V(!new), K(!new)>(sc: Schema<V, K>, ok: V -> bool, join: (V, V) -> Option<V>, left: seq<V>,
      right: seq<V>)
    requires sc.Valid() && Laws(sc, ok, join) && Sorted(sc, left) && Sorted(sc, right)
    requires (forall v :: v in left ==> ok(v)) && (forall v :: v in right ==> ok(v))
    requires Merge(sc, join, left, right).Some?
    ensures forall v :: v in Merge(sc, join, left, right).value ==> ok(v)
  {
    MergeSpec(sc, join, left, right);
    var u := Merge(sc, join, left, right).value;
    forall v | v in u ensures ok(v) {
      LookupSorted(sc, u, v);
      LookupFinds(sc, left, sc.key(v));
      LookupFinds(sc, right, sc.key(v));
    }
  }

  /** What the grouping `(a + b) + c` demands and gives at one key. */
  predicate LeftAgree<V>(join: (V, V) -> Option<V>, a: Option<V>, b: Option<V>, c: Option<V>) {
    Agree(join, a, b) && Agree(join, JoinRow(join, a, b), c)
  }

  function LeftRow<V>(join: (V, V) -> Option<V>, a: Option<V>, b: Option<V>, c: Option<V>): Option<V> {
    JoinRow(join, JoinRow(join, a, b), c)
  }

  predicate RightAgree<V>(join: (V, V) -> Option<V>, a: Option<V>, b: Option<V>, c: Option<V>) {
    Agree(join, b, c) && Agree(join, a, JoinRow(join, b, c))
  }

  function RightRow<V>(join: (V, V) -> Option<V>, a: Option<V>, b: Option<V>, c: Option<V>): Option<V> {
    JoinRow(join, a, JoinRow(join, b, c))
  }

  lemma MergeLeftSpec<V(!new), K(!new)>(sc: Schema<V, K>, join: (V, V) -> Option<V>, a: seq<V>, b: seq<V>, c: seq<V>)
    requires sc.Valid() && KeepsKey(sc, join) && Sorted(sc, a) && Sorted(sc, b) && Sorted(sc, c)
    ensures (forall k :: LeftAgree(join, Lookup(sc, a, k), Lookup(sc, b, k), Lookup(sc, c, k)))
            ==> MergeLeft(sc, join, a, b, c).Some?
    ensures MergeLeft(sc, join, a, b, c).Some?
            ==> forall k :: LeftAgree(join, Lookup(sc, a, k), Lookup(sc, b, k), Lookup(sc, c, k))
    ensures MergeLeft(sc, join, a, b, c).Some? ==>
              var u := MergeLeft(sc, join, a, b, c).value;
              && Sorted(sc, u)
              && forall k :: Lookup(sc, u, k) == LeftRow(join, Lookup(sc, a, k), Lookup(sc, b, k), Lookup(sc, c, k))
  {
    MergeSpec(sc, join, a, b);
    if Merge(sc, join, a, b).Some? {
      MergeSpec(sc, join, Merge(sc, join, a, b).value, c);
    } else {
      var k :| !Agree(join, Lookup(sc, a, k), Lookup(sc, b, k));
      assert !LeftAgree(join, Lookup(sc, a, k), Lookup(sc, b, k), Lookup(sc, c, k));
    }
  }

  lemma MergeRightSpec<V(!new), K(!new)>(sc: Schema<V, K>, join: (V, V) -> Option<V>, a: seq<V>, b: seq<V>, c: seq<V>)
    requires sc.Valid() && KeepsKey(sc, join) && Sorted(sc, a) && Sorted(sc, b) && Sorted(sc, c)
    ensures (forall k :: RightAgree(join, Lookup(sc, a, k), Lookup(sc, b, k), Lookup(sc, c, k)))
            ==> MergeRight(sc, join, a, b, c).Some?
    ensures MergeRight(sc, join, a, b, c).Some?
            ==> forall k :: RightAgree(join, Lookup(sc, a, k), Lookup(sc, b, k), Lookup(sc, c, k))
    ensures MergeRight(sc, join, a, b, c).Some? ==>
              var u := MergeRight(sc, join, a, b, c).value;
              && Sorted(sc, u)
              && forall k :: Lookup(sc, u, k) == RightRow(join, Lookup(sc, a, k), Lookup(sc, b, k), Lookup(sc, c, k))
  {
    MergeSpec(sc, join, b, c);
    if Merge(sc, join, b, c).Some? {
      MergeSpec(sc, join, a, Merge(sc, join, b, c).value);
    } else {
      var k :| !Agree(join, Lookup(sc, b, k), Lookup(sc, c, k));
      assert !RightAgree(join, Lookup(sc, a, k), Lookup(sc, b, k), Lookup(sc, c, k));
    }
  }

  /** Both groupings of a three-way merge are defined together and give the same table. */
  lemma MergeAssociates<V(!new), K(!new)>(sc: Schema<V, K>, ok: V -> bool, join: (V, V) -> Option<V>,
      a: seq<V>, b: seq<V>, c: seq<V>)
    requires sc.Valid() && Laws(sc, ok, join) && Sorted(sc, a) && Sorted(sc, b) && Sorted(sc, c)
    requires forall v :: v in a || v in b || v in c ==> ok(v)
    ensures MergeLeft(sc, join, a, b, c) == MergeRight(sc, join, a, b, c)
  {
    forall k ensures SameAtKey(sc, join, a, b, c, k) {
      RowsAssociate(sc, ok, join, a, b, c, k);
    }
    GroupingsAgree(sc, join, a, b, c);
  }

  lemma GroupingsAgree<V(!new), K(!new)>(sc: Schema<V, K>, join: (V, V) -> Option<V>, a: seq<V>, b: seq<V>, c: seq<V>)
    requires sc.Valid() && KeepsKey(sc, join) && Sorted(sc, a) && Sorted(sc, b) && Sorted(sc, c)
    requires forall k :: SameAtKey(sc, join, a, b, c, k)
    ensures MergeLeft(sc, join, a, b, c) == MergeRight(sc, join, a, b, c)
  {
    MergeLeftSpec(sc, join, a, b, c);
    MergeRightSpec(sc, join, a, b, c);
    if MergeLeft(sc, join, a, b, c).Some? {
      forall k ensures RightAgree(join, Lookup(sc, a, k), Lookup(sc, b, k), Lookup(sc, c, k)) {
        assert SameAtKey(sc, join, a, b, c, k);
      }
      var s, t := MergeLeft(sc, join, a, b, c).value, MergeRight(sc, join, a, b, c).value;
      forall k ensures Lookup(sc, s, k) == Lookup(sc, t, k) {
        assert SameAtKey(sc, join, a, b, c, k);
      }
      Extensional(sc, s, t);
    } else {
      var k :| !LeftAgree(join, Lookup(sc, a, k), Lookup(sc, b, k), Lookup(sc, c, k));
      assert SameAtKey(sc, join, a, b, c, k);
      assert !RightAgree(join, Lookup(sc, a, k), Lookup(sc, b, k), Lookup(sc, c, k));
    }
  }

  ghost predicate SameAtKey<V, K(!new)>(sc: Schema<V, K>, join: (V, V) -> Option<V>, a: seq<V>, b: seq<V>,
      c: seq<V>, k: K) {
    var x, y, z := Lookup(sc, a, k), Lookup(sc, b, k), Lookup(sc, c, k);
    LeftAgree(join, x, y, z) == RightAgree(join, x, y, z)
    && (LeftAgree(join, x, y, z) ==> LeftRow(join, x, y, z) == RightRow(join, x, y, z))
  }

  lemma RowsAssociate<V(!new), K(!new)>(sc: Schema<V, K>, ok: V -> bool, join: (V, V) -> Option<V>, a: seq<V>,
      b: seq<V>, c: seq<V>, k: K)
    requires Laws(sc, ok, join)
    requires forall v :: v in a || v in b || v in c ==> ok(v)
    ensures SameAtKey(sc, join, a, b, c, k)
  {
    LookupFinds(sc, a, k);
    LookupFinds(sc, b, k);
    LookupFinds(sc, c, k);
    var x, y, z := Lookup(sc, a, k), Lookup(sc, b, k), Lookup(sc, c, k);
    if x.Some? && y.Some? && z.Some? {
      assert JoinLeft(join, x.value, y.value, z.value) == JoinRight(join, x.value, y.value, z.value);
    }
  }

  function Always<V>(v: V): bool { true }

  lemma SameRowKeepsKey<V(!new), K(!new)>(sc: Schema<V, K>)
    ensures KeepsKey(sc, SameRow<V>)
  {
  }

  lemma SameRowLaws<V(!new), K(!new)>(sc: Schema<V, K>)
    ensures Laws(sc, Always<V>, SameRow<V>)
  {
  }

  /** An ordered table is no longer than an ordered table that has all of its keys. */
  lemma {:induction false} KeysFit<V(!new), K(!new)>(sc: Schema<V, K>, s: seq<V>, t: seq<V>)
    requires sc.Valid() && Sorted(sc, s) && Sorted(sc, t)
    requires forall v :: v in s ==> Lookup(sc, t, sc.key(v)).Some?
    ensures |s| <= |t|
    decreases |s|
  {
    if s != [] {
      var n := |s| - 1;
      var last := sc.key(s[n]);
      LookupFinds(sc, t, last);
      var j :| 0 <= j < |t| && t[j] == Lookup(sc, t, last).value;
      forall v | v in s[..n] ensures Lookup(sc, t[..j], sc.key(v)).Some? {
        assert v in s && sc.less(sc.key(v), last);
        LookupFinds(sc, t, sc.key(v));
        var i :| 0 <= i < |t| && t[i] == Lookup(sc, t, sc.key(v)).value;
        assert i < j && t[..j][i] == t[i];
        LookupFinds(sc, t[..j], sc.key(v));
      }
      KeysFit(sc, s[..n], t[..j]);
    }
  }

  /** A merge is at least as long as each side. */
  lemma MergeGrows<V(!new), K(!new)>(sc: Schema<V, K>, join: (V, V) -> Option<V>, left: seq<V>, right: seq<V>)
    requires sc.Valid() && KeepsKey(sc, join) && Sorted(sc, left) && Sorted(sc, right)
    requires Merge(sc, join, left, right).Some?
    ensures |left| <= |Merge(sc, join, left, right).value| && |right| <= |Merge(sc, join, left, right).value|
  {
    MergeSpec(sc, join, left, right);
    var u := Merge(sc, join, left, right).value;
    forall v | v in left ensures Lookup(sc, u, sc.key(v)).Some? { LookupSorted(sc, left, v); }
    forall v | v in right ensures Lookup(sc, u, sc.key(v)).Some? { LookupSorted(sc, right, v); }
    KeysFit(sc, left, u);
    KeysFit(sc, right, u);
  }

  // ----- ordered sets --------------------------------------------------------------------

  /** Collecting into a `BTreeSet` and back: the strictly sorted list of the distinct elements. */
  lemma {:induction false} CollectSpec<T(!new)>(sc: Schema<T, T>, t: seq<T>, xs: seq<T>)
    requires sc.Valid() && Sorted(sc, t) && forall x :: sc.key(x) == x
    ensures PutAll(sc, SameRow<T>, t, xs).Some?
    ensures var u := PutAll(sc, SameRow<T>, t, xs).value;
            Sorted(sc, u) && forall x :: x in u <==> x in t || x in xs
    decreases xs
  {
    if xs != [] {
      PutSpec(sc, SameRow<T>, t, xs[0]);
      LookupFinds(sc, t, xs[0]);
      var u := Put(sc, SameRow<T>, t, xs[0]).value;
      forall x ensures x in u <==> x in t || x == xs[0] {
        LookupFinds(sc, u, x);
        LookupFinds(sc, t, x);
        if x in t { LookupSorted(sc, t, x); }
        if x in u { LookupSorted(sc, u, x); }
      }
      CollectSpec(sc, u, xs[1..]);
      assert xs == [xs[0]] + xs[1..];
    }
  }

  /** Two strictly sorted lists with the same elements are the same list. */
  lemma SameElements<V(!new), K(!new)>(sc: Schema<V, K>, s: seq<V>, t: seq<V>)
    requires sc.Valid() && Sorted(sc, s) && Sorted(sc, t)
    requires forall v :: v in s <==> v in t
    ensures s == t
  {
    forall k ensures Lookup(sc, s, k) == Lookup(sc, t, k) {
      LookupFinds(sc, s, k);
      LookupFinds(sc, t, k);
      if Lookup(sc, s, k).Some? { LookupSorted(sc, t, Lookup(sc, s, k).value); }
      if Lookup(sc, t, k).Some? { LookupSorted(sc, s, Lookup(sc, t, k).value); }
    }
    Extensional(sc, s, t);
  }

  /** Keeping the rows that satisfy `keep`, in order. */
  function Filter<V>(keep: V -> bool, t: seq<V>): seq<V> {
    if t == [] then [] else (if keep(t[0]) then [t[0]] else []) + Filter(keep, t[1..])
  }

  lemma {:induction false} FilterSpec<V, K(!new)>(sc: Schema<V, K>, keep: V -> bool, t: seq<V>)
    ensures forall v :: v in Filter(keep, t) ==> v in t && keep(v)
    ensures forall v :: v in t && keep(v) ==> v in Filter(keep, t)
    ensures Sorted(sc, t) ==> Sorted(sc, Filter(keep, t))
  {
    if t != [] {
      FilterSpec(sc, keep, t[1..]);
      assert t == [t[0]] + t[1..];
      if Sorted(sc, t) {
        var rest := Filter(keep, t[1..]);
        assert Sorted(sc, t[1..]);
        assert forall v :: v in t[1..] ==> sc.less(sc.key(t[0]), sc.key(v));
        assert forall j :: 0 <= j < |rest| ==> rest[j] in t[1..];
      }
    }
  }

  /** The merge loop of `merge_files`, `merge_declarations` and `merge_macros`: the first row
      that cannot be joined names a key on which the two tables disagree. */
  method MergeTable<V(!new), K(==,!new)>(sc: Schema<V, K>, join: (V, V) -> Option<V>, left: seq<V>, right: seq<V>)
      returns (r: Result<seq<V>, K>)
    requires sc.Valid() && KeepsKey(sc, join) && Sorted(sc, left) && Sorted(sc, right)
    ensures r.Ok? ==> Merge(sc, join, left, right) == Some(r.value)
    ensures r.Err? ==> Merge(sc, join, left, right).None?
    ensures r.Err? ==> !Agree(join, Lookup(sc, left, r.error), Lookup(sc, right, r.error))
  {
    var table, rows := [], left + right;
    for i := 0 to |rows|
      invariant PutAll(sc, join, [], rows[..i]) == Some(table)
    {
      var step := Put(sc, join, table, rows[i]);
      assert rows[..i + 1] == rows[..i] + [rows[i]];
      PutAllAppend(sc, join, [], rows[..i], [rows[i]]);
      assert [rows[i]][1..] == [];
      if step.None? {
        assert rows == rows[..i] + rows[i..];
        PutAllAppend(sc, join, [], rows[..i], rows[i..]);
        ConflictKey(sc, join, left, right, i, table);
        return Err(sc.key(rows[i]));
      }
      table := step.value;
    }
    assert rows[..|rows|] == rows;
    return Ok(table);
  }

  /** The rows of the left table never conflict; a row of the right one meets only the left. */
  lemma ConflictKey<V(!new), K(!new)>(sc: Schema<V, K>, join: (V, V) -> Option<V>, left: seq<V>, right: seq<V>,
      i: nat, table: seq<V>)
    requires sc.Valid() && KeepsKey(sc, join) && Sorted(sc, left) && Sorted(sc, right)
    requires i < |left + right| && PutAll(sc, join, [], (left + right)[..i]) == Some(table)
    requires Put(sc, join, table, (left + right)[i]).None?
    ensures var k := sc.key((left + right)[i]); !Agree(join, Lookup(sc, left, k), Lookup(sc, right, k))
  {
    var rows, k := left + right, sc.key((left + right)[i]);
    if i < |left| {
      var before := left[..i];
      assert rows[..i] == before;
      PutAllSpec(sc, join, [], before);
      LookupFinds(sc, before, k);
      PutSpec(sc, join, table, rows[i]);
    } else {
      var before := right[..i - |left|];
      assert rows[..i] == left + before;
      PutAllAppend(sc, join, [], left, before);
      PutAllSpec(sc, join, [], left);
      Extensional(sc, PutAll(sc, join, [], left).value, left);
      PutAllSpec(sc, join, left, before);
      LookupFinds(sc, before, k);
      PutSpec(sc, join, table, rows[i]);
      LookupSorted(sc, right, rows[i]);
    }
  }
}
