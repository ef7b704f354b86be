/**
  A table's list ordered by its collation rule, and what the list means: for the rules that compare
  keys alone, a finite map from keys up to equality.
*/
module KeyOrder {
  import opened IndexBlock
  import opened BTreeShape
  import opened BTreeOrder
  import opened BTreeSplit
  import opened BTreeRemove
  import opened Collate

  /** Strictly ascending, every key fit for the rule.  Extents are pairwise disjoint then. */
  ghost predicate Ordered(rule: Rule, fold: Fold, l: seq<KV>) {
    && (forall i :: 0 <= i < |l| ==> KeyOk(rule, l[i]))
    && (forall i, j :: 0 <= i < j < |l| ==> Cmp(rule, fold, l[i], l[j]) < 0)
  }

  /** What the order says of a list: binary keys and numbers ascend, strings are in dictionary order once folded,
      extents lie one above the other. */
  lemma OrderedMeans(rule: Rule, fold: Fold, l: seq<KV>)
    requires Keyed(rule, l)
    ensures Ordered(rule, fold, l) <==> forall i, j :: 0 <= i < j < |l| ==> Precedes(rule, fold, l[i], l[j])
  {
    hide Cmp, Precedes, KeyOk;
    forall i, j | 0 <= i < j < |l| ensures Cmp(rule, fold, l[i], l[j]) < 0 <==> Precedes(rule, fold, l[i], l[j]) {
      CmpPrecedes(rule, fold, l[i], l[j]);
    }
  }

  /** Every entry comes before those visited after it, or in reverse, behind them. */
  ghost predicate InWalkOrder(rule: Rule, fold: Fold, visited: seq<KV>, reverse: bool) {
    forall i, j :: 0 <= i < j < |visited| ==>
      if reverse then Precedes(rule, fold, visited[j], visited[i]) else Precedes(rule, fold, visited[i], visited[j])
  }

  lemma WalkOrder(rule: Rule, fold: Fold, l: seq<KV>, visited: seq<KV>, reverse: bool)
    requires Ordered(rule, fold, l) && visited == if reverse then Reversed(l) else l
    ensures InWalkOrder(rule, fold, visited, reverse)
  {
    hide Cmp, Precedes, KeyOk;
    OrderedMeans(rule, fold, l);
  }

  /** Every key fit for the rule. */
  ghost predicate Keyed(rule: Rule, l: seq<KV>) {
    forall i :: 0 <= i < |l| ==> KeyOk(rule, l[i])
  }

  ghost function ProbeFor(rule: Rule, fold: Fold, q: KV): Probe {
    (kv: KV) => Cmp(rule, fold, kv, q)
  }

  /** A search key cuts an ordered list into smaller, equal and larger entries, in this order. */
  lemma OrderedMonotone(rule: Rule, fold: Fold, l: seq<KV>, q: KV)
    requires Ordered(rule, fold, l) && ProbeOk(rule, q)
    ensures Monotone(ProbeFor(rule, fold, q), l)
  {
    var cmp := ProbeFor(rule, fold, q);
    forall i, j | 0 <= i < j < |l|
      ensures (cmp(l[j]) < 0 ==> cmp(l[i]) < 0) && (cmp(l[i]) > 0 ==> cmp(l[j]) > 0)
    {
      CmpTrans(rule, fold, l[i], l[j], q);
    }
  }

  /** The list with `kv` put before position `i`. */
  function With(l: seq<KV>, i: nat, kv: KV): seq<KV>
    requires i <= |l|
  {
    l[..i] + [kv] + l[i..]
  }

  /** Where a key belongs, entries before it are smaller and the others larger. */
  lemma InsertSides(rule: Rule, fold: Fold, l: seq<KV>, i: nat, kv: KV)
    requires Keyed(rule, l) && i <= |l| && KeyOk(rule, kv)
    requires Below(ProbeFor(rule, fold, kv), l[..i]) && Above(ProbeFor(rule, fold, kv), l[i..])
    ensures forall k :: 0 <= k < i ==> Cmp(rule, fold, l[k], kv) < 0
    ensures forall k :: i <= k < |l| ==> Cmp(rule, fold, kv, l[k]) < 0
  {
    hide Cmp, KeyOk;
    var cmp := ProbeFor(rule, fold, kv);
    forall k | 0 <= k < |l| ensures if k < i then Cmp(rule, fold, l[k], kv) < 0 else Cmp(rule, fold, kv, l[k]) < 0 {
      CmpSym(rule, fold, l[k], kv);
      assert k < i ==> cmp(l[..i][k]) < 0;
      assert k >= i ==> cmp(l[i..][k - i]) > 0;
    }
  }

  lemma InsertOrdered(rule: Rule, fold: Fold, l: seq<KV>, i: nat, kv: KV)
    requires Ordered(rule, fold, l) && i <= |l| && KeyOk(rule, kv)
    requires Below(ProbeFor(rule, fold, kv), l[..i]) && Above(ProbeFor(rule, fold, kv), l[i..])
    ensures Ordered(rule, fold, With(l, i, kv))
  {
    hide Cmp, KeyOk;
    InsertSides(rule, fold, l, i, kv);
    var w := With(l, i, kv);
    forall k, m | 0 <= k < m < |w| ensures Cmp(rule, fold, w[k], w[m]) < 0 {
      assert w[k] == if k < i then l[k] else if k == i then kv else l[k - 1];
      assert w[m] == if m < i then l[m] else if m == i then kv else l[m - 1];
    }
  }

  lemma WithoutOrdered(rule: Rule, fold: Fold, l: seq<KV>, i: nat)
    requires Ordered(rule, fold, l) && i < |l|
    ensures Ordered(rule, fold, Without(l, i)) && Distinct(l)
  {
    forall a, b | 0 <= a < b < |l| ensures l[a] != l[b] {
      CmpSym(rule, fold, l[a], l[b]);
    }
  }

  /** Where the entries were of a list that has lost a run of entries. */
  lemma RunAt(l: seq<KV>, target: seq<KV>) returns (i: nat, n: nat)
    requires LosesRun(l, target)
    ensures i <= |l| && |l| + n == |target|
    ensures forall a :: 0 <= a < i ==> l[a] == target[a]
    ensures forall a :: i <= a < |l| ==> l[a] == target[a + n]
  {
    var b, e :| 0 <= b <= e <= |target| && l == target[..b] + target[e..];
    i, n := b, e - b;
  }

  /** A list that has lost a run of entries is still ordered. */
  lemma RunOrdered(rule: Rule, fold: Fold, l: seq<KV>, target: seq<KV>)
    requires LosesRun(l, target) && Ordered(rule, fold, target)
    ensures Ordered(rule, fold, l)
  {
    hide Cmp, KeyOk, LosesRun;
    var i, n := RunAt(l, target);
  }

  /** Ascending, but for entries that are there twice: what a removal that went wrong leaves. */
  ghost predicate Loosely(rule: Rule, fold: Fold, l: seq<KV>) {
    && Keyed(rule, l)
    && forall i, j :: 0 <= i < j < |l| ==> l[i] == l[j] || Cmp(rule, fold, l[i], l[j]) < 0
  }

  lemma LooseMonotone(rule: Rule, fold: Fold, l: seq<KV>, q: KV)
    requires Loosely(rule, fold, l) && ProbeOk(rule, q)
    ensures Monotone(ProbeFor(rule, fold, q), l)
  {
    var cmp := ProbeFor(rule, fold, q);
    forall i, j | 0 <= i < j < |l|
      ensures (cmp(l[j]) < 0 ==> cmp(l[i]) < 0) && (cmp(l[i]) > 0 ==> cmp(l[j]) > 0)
    {
      if l[i] != l[j] {
        CmpTrans(rule, fold, l[i], l[j], q);
      }
    }
  }

  lemma RunLoose(rule: Rule, fold: Fold, l: seq<KV>, target: seq<KV>)
    requires LosesRun(l, target) && Loosely(rule, fold, target)
    ensures Loosely(rule, fold, l)
  {
    hide Cmp, KeyOk, LosesRun;
    var i, n := RunAt(l, target);
  }

  /** Removals keep a list ascending so far, also those that go wrong. */
  lemma RemoveLoose(rule: Rule, fold: Fold, l: seq<KV>, r: nat, j: nat)
    requires Loosely(rule, fold, l) && r < |l| && j < |l|
    ensures Loosely(rule, fold, Without(l, r))
    ensures r + 1 < |l| ==> Loosely(rule, fold, Without(Doubled(l, r), j))
  {
    WithoutLoose(rule, fold, l, r);
    if r + 1 < |l| {
      DoubledLoose(rule, fold, l, r);
      WithoutLoose(rule, fold, Doubled(l, r), j);
    }
  }

  lemma DoubledLoose(rule: Rule, fold: Fold, l: seq<KV>, r: nat)
    requires Loosely(rule, fold, l) && r + 1 < |l|
    ensures Loosely(rule, fold, Doubled(l, r))
  {
    var d := Doubled(l, r);
    forall a, b | 0 <= a < b < |d| ensures d[a] == d[b] || Cmp(rule, fold, d[a], d[b]) < 0 {
      var a', b' := if a == r then r + 1 else a, if b == r then r + 1 else b;
      assert d[a] == l[a'] && d[b] == l[b'] && (a' < b' || a' == b');
    }
  }

  lemma WithoutLoose(rule: Rule, fold: Fold, l: seq<KV>, i: nat)
    requires Loosely(rule, fold, l) && i < |l|
    ensures Loosely(rule, fold, Without(l, i))
  {
    var w := Without(l, i);
    forall a | 0 <= a < |w| ensures w[a] == l[if a < i then a else a + 1] {
    }
  }

  /** So does an insertion where the key belongs. */
  lemma InsertLoose(rule: Rule, fold: Fold, l: seq<KV>, i: nat, kv: KV)
    requires Loosely(rule, fold, l) && i <= |l| && KeyOk(rule, kv)
    requires Below(ProbeFor(rule, fold, kv), l[..i]) && Above(ProbeFor(rule, fold, kv), l[i..])
    ensures Loosely(rule, fold, With(l, i, kv))
  {
    hide Cmp, KeyOk;
    InsertSides(rule, fold, l, i, kv);
    var w := With(l, i, kv);
    forall k, m | 0 <= k < m < |w| ensures w[k] == w[m] || Cmp(rule, fold, w[k], w[m]) < 0 {
      assert w[k] == if k < i then l[k] else if k == i then kv else l[k - 1];
      assert w[m] == if m < i then l[m] else if m == i then kv else l[m - 1];
    }
  }

  /** Without a length the key of an extent matches one start only; the other rules match one key. */
  lemma OneMatch(rule: Rule, fold: Fold, l: seq<KV>, q: KV, i: nat, j: nat)
    requires Ordered(rule, fold, l) && ProbeOk(rule, q) && (rule == Extent ==> q.value == [])
    requires i < |l| && j < |l| && Cmp(rule, fold, l[i], q) == 0 && Cmp(rule, fold, l[j], q) == 0
    ensures i == j
  {
    if i != j {
      var a, b := if i < j then i else j, if i < j then j else i;
      assert Cmp(rule, fold, l[a], l[b]) < 0;
      if rule != Extent {
        CanonEqual(rule, fold, l[a], q);
        CanonEqual(rule, fold, l[b], q);
        CanonEqual(rule, fold, l[a], l[b]);
      }
      assert false;
    }
  }

  /** The entries on either side of a place, seen by a key that belongs there. */
  lemma NoMatch(cmp: Probe, l: seq<KV>, i: nat)
    requires i <= |l| && Below(cmp, l[..i]) && Above(cmp, l[i..])
    ensures forall k :: 0 <= k < |l| ==> cmp(l[k]) != 0
  {
    forall k | 0 <= k < |l| ensures cmp(l[k]) != 0 {
      assert k < i ==> l[k] == l[..i][k];
      assert k >= i ==> l[k] == l[i..][k - i];
    }
  }

  /** In an ordered table the keys below an entry lie strictly between the separators on its two sides. */
  lemma Separated(rule: Rule, fold: Fold, z: Zip, p: nat, kv: KV)
    requires z.focus.Node? && p < |z.focus.slots| && Ordered(rule, fold, Contents(z))
             && kv in Flat(z.focus.slots[p].kid)
    ensures var e := z.focus.slots[p].ent; e.Ent? ==> Cmp(rule, fold, kv, KV(e.key, e.value)) < 0
    ensures p > 0 ==> var e := z.focus.slots[p - 1].ent; e.Ent? ==> Cmp(rule, fold, KV(e.key, e.value), kv) < 0
  {
    hide FlatS, Ordered, Cmp, LeftOf, RightOf, KeyOk;
    var ss := z.focus.slots;
    var before, k, after := LeftOf(z.path) + FlatS(ss[..p]), Flat(ss[p].kid), FlatS(ss[p+1..]) + RightOf(z.path);
    FlatAt(ss, p);
    assert FlatS(ss) == FlatS(ss[..p]) + k + Pay(ss[p].ent) + FlatS(ss[p+1..]);
    Apart4(LeftOf(z.path), FlatS(ss[..p]), k, Pay(ss[p].ent), FlatS(ss[p+1..]), RightOf(z.path));
    var i :| 0 <= i < |k| && k[i] == kv;
    Inner(before, k, Pay(ss[p].ent), after, i);
    if ss[p].ent.Ent? {
      InOrder(rule, fold, Contents(z), |before| + i, |before| + |k|);
    }
    if p > 0 && ss[p - 1].ent.Ent? {
      EndsWith(ss, p);
      assert Contents(z)[|before| - 1] == before[|before| - 1] == FlatS(ss[..p])[|FlatS(ss[..p])| - 1];
      InOrder(rule, fold, Contents(z), |before| - 1, |before| + i);
    }
  }

  lemma InOrder(rule: Rule, fold: Fold, l: seq<KV>, i: nat, j: nat)
    requires Ordered(rule, fold, l) && i < j < |l|
    ensures Cmp(rule, fold, l[i], l[j]) < 0
  {
  }

  lemma EndsWith(ss: seq<Slot>, p: nat)
    requires 0 < p <= |ss| && ss[p - 1].ent.Ent?
    ensures var a := FlatS(ss[..p]); |a| > 0 && a[|a| - 1] == KV(ss[p - 1].ent.key, ss[p - 1].ent.value)
  {
    FlatAt(ss[..p], p - 1);
    assert ss[..p][p..] == [];
  }

  lemma Apart4<T>(l: seq<T>, a: seq<T>, k: seq<T>, e: seq<T>, b: seq<T>, r: seq<T>)
    ensures l + (a + k + e + b) + r == (l + a) + k + e + (b + r)
  {
  }

  lemma Inner<T>(a: seq<T>, k: seq<T>, e: seq<T>, b: seq<T>, i: nat)
    requires i < |k|
    ensures (a + k + e + b)[|a| + i] == k[i] && (|e| > 0 ==> (a + k + e + b)[|a| + |k|] == e[0])
  {
  }

  // ----- the map -----

  /** The finite map a table stands for. */
  ghost function MapOf(rule: Rule, fold: Fold, l: seq<KV>): map<seq<nat>, KV>
    requires rule != Extent
  {
    if l == [] then map[] else MapOf(rule, fold, l[..|l| - 1])[Canon(rule, fold, l[|l| - 1].key) := l[|l| - 1]]
  }

  lemma {:induction false} MapDomain(rule: Rule, fold: Fold, l: seq<KV>, c: seq<nat>)
    requires rule != Extent
    ensures c in MapOf(rule, fold, l) <==> exists i :: 0 <= i < |l| && Canon(rule, fold, l[i].key) == c
  {
    if l != [] {
      var n: nat := |l| - 1;
      MapDomain(rule, fold, l[..n], c);
      if Canon(rule, fold, l[n].key) != c && exists i :: 0 <= i < |l| && Canon(rule, fold, l[i].key) == c {
        var i :| 0 <= i < |l| && Canon(rule, fold, l[i].key) == c;
        assert l[..n][i] == l[i];
      }
    }
  }

  lemma CanonDistinct(rule: Rule, fold: Fold, l: seq<KV>, i: nat, j: nat)
    requires rule != Extent && Ordered(rule, fold, l) && i < j < |l|
    ensures Canon(rule, fold, l[i].key) != Canon(rule, fold, l[j].key)
  {
    CanonEqual(rule, fold, l[i], l[j]);
  }

  /** Every entry is found under its own key, and under no other. */
  lemma {:induction false} MapAt(rule: Rule, fold: Fold, l: seq<KV>, i: nat)
    requires rule != Extent && Ordered(rule, fold, l) && i < |l|
    ensures Canon(rule, fold, l[i].key) in MapOf(rule, fold, l)
    ensures MapOf(rule, fold, l)[Canon(rule, fold, l[i].key)] == l[i]
  {
    var n: nat := |l| - 1;
    if i < n {
      assert l[..n][i] == l[i];
      MapAt(rule, fold, l[..n], i);
      CanonDistinct(rule, fold, l, i, n);
    }
  }

  /** Two maps of ordered lists agree if the lists hold the same entries. */
  lemma MapFrom(rule: Rule, fold: Fold, l: seq<KV>, c: seq<nat>)
    requires rule != Extent && Ordered(rule, fold, l) && c in MapOf(rule, fold, l)
    ensures MapOf(rule, fold, l)[c] in l && Canon(rule, fold, MapOf(rule, fold, l)[c].key) == c
  {
    MapDomain(rule, fold, l, c);
    var i :| 0 <= i < |l| && Canon(rule, fold, l[i].key) == c;
    MapAt(rule, fold, l, i);
  }

  lemma MapHas(rule: Rule, fold: Fold, l: seq<KV>, kv: KV)
    requires rule != Extent && Ordered(rule, fold, l) && kv in l
    ensures Canon(rule, fold, kv.key) in MapOf(rule, fold, l) && MapOf(rule, fold, l)[Canon(rule, fold, kv.key)] == kv
  {
    var i :| 0 <= i < |l| && l[i] == kv;
    MapAt(rule, fold, l, i);
  }

  /** Inserting into the list is adding to the map. */
  lemma InsertMap(rule: Rule, fold: Fold, l: seq<KV>, i: nat, kv: KV)
    requires rule != Extent && Ordered(rule, fold, l) && i <= |l| && Ordered(rule, fold, With(l, i, kv))
    ensures MapOf(rule, fold, With(l, i, kv)) == MapOf(rule, fold, l)[Canon(rule, fold, kv.key) := kv]
  {
    hide MapOf, Canon, Ordered;
    var w, k := With(l, i, kv), Canon(rule, fold, kv.key);
    var m, m' := MapOf(rule, fold, l), MapOf(rule, fold, w);
    assert w[i] == kv;
    MapHas(rule, fold, w, kv);
    forall c | c in m ensures c in m' && (c != k ==> m'[c] == m[c]) {
      MapFrom(rule, fold, l, c);
      InWith(l, i, kv, m[c]);
      MapHas(rule, fold, w, m[c]);
    }
    forall c | c in m' ensures c == k || c in m {
      MapFrom(rule, fold, w, c);
      InWith(l, i, kv, m'[c]);
      if m'[c] != kv {
        MapHas(rule, fold, l, m'[c]);
      }
    }
  }

  lemma InsertKeeps(rule: Rule, fold: Fold, l: seq<KV>, i: nat, kv: KV)
    requires Ordered(rule, fold, l) && i <= |l| && KeyOk(rule, kv)
    requires Below(ProbeFor(rule, fold, kv), l[..i]) && Above(ProbeFor(rule, fold, kv), l[i..])
    ensures Ordered(rule, fold, With(l, i, kv))
    ensures rule != Extent ==>
              MapOf(rule, fold, With(l, i, kv)) == MapOf(rule, fold, l)[Canon(rule, fold, kv.key) := kv]
  {
    hide MapOf, Canon, Ordered, Below, Above, KeyOk;
    InsertOrdered(rule, fold, l, i, kv);
    if rule != Extent {
      InsertMap(rule, fold, l, i, kv);
    }
  }

  /** What an insertion leaves, refused or not. */
  lemma InsertLeaves(rule: Rule, fold: Fold, l: seq<KV>, i: nat, kv: KV, l': seq<KV>, ok: bool)
    requires i <= |l| && KeyOk(rule, kv)
    requires Below(ProbeFor(rule, fold, kv), l[..i]) && Above(ProbeFor(rule, fold, kv), l[i..])
    requires if ok then l' == With(l, i, kv) else LosesRun(l', With(l, i, kv))
    ensures Ordered(rule, fold, l) ==> Ordered(rule, fold, l')
    ensures Ordered(rule, fold, l) && ok && rule != Extent ==>
              MapOf(rule, fold, l') == MapOf(rule, fold, l)[Canon(rule, fold, kv.key) := kv]
  {
    hide MapOf, Canon, Ordered, Below, Above, KeyOk, LosesRun;
    if Ordered(rule, fold, l) {
      InsertKeeps(rule, fold, l, i, kv);
      if !ok {
        RunOrdered(rule, fold, l', With(l, i, kv));
      }
    }
  }

  lemma InWith(l: seq<KV>, i: nat, kv: KV, x: KV)
    requires i <= |l|
    ensures x in With(l, i, kv) <==> x == kv || x in l
  {
    assert l == l[..i] + l[i..];
  }

  /** Removing from the list is removing from the map. */
  lemma RemoveMap(rule: Rule, fold: Fold, l: seq<KV>, i: nat)
    requires rule != Extent && Ordered(rule, fold, l) && i < |l|
    ensures MapOf(rule, fold, Without(l, i)) == MapOf(rule, fold, l) - {Canon(rule, fold, l[i].key)}
  {
    hide MapOf, Canon, Ordered, Without;
    var w := Without(l, i);
    WithoutOrdered(rule, fold, l, i);
    WithBack(l, i);
    InsertMap(rule, fold, w, i, l[i]);
    GoneKey(rule, fold, l, i);
  }

  lemma WithBack(l: seq<KV>, i: nat)
    requires i < |l|
    ensures i <= |Without(l, i)| && l == With(Without(l, i), i, l[i])
  {
  }

  lemma GoneKey(rule: Rule, fold: Fold, l: seq<KV>, i: nat)
    requires rule != Extent && Ordered(rule, fold, l) && i < |l|
    ensures Canon(rule, fold, l[i].key) !in MapOf(rule, fold, Without(l, i))
  {
    hide MapOf, Canon, Ordered;
    var w, c := Without(l, i), Canon(rule, fold, l[i].key);
    if c in MapOf(rule, fold, w) {
      WithoutOrdered(rule, fold, l, i);
      MapDomain(rule, fold, w, c);
      var j :| 0 <= j < |w| && Canon(rule, fold, w[j].key) == c;
      if j < i {
        CanonDistinct(rule, fold, l, j, i);
      } else {
        CanonDistinct(rule, fold, l, i, j + 1);
      }
      assert false;
    }
  }

  /** A search finds what the map holds under the key. */
  lemma SearchMap(rule: Rule, fold: Fold, l: seq<KV>, q: KV)
    requires rule != Extent && Ordered(rule, fold, l)
    ensures Canon(rule, fold, q.key) in MapOf(rule, fold, l) <==>
              exists i :: 0 <= i < |l| && Cmp(rule, fold, l[i], q) == 0
    ensures forall i :: 0 <= i < |l| && Cmp(rule, fold, l[i], q) == 0 ==>
              Canon(rule, fold, q.key) in MapOf(rule, fold, l) && MapOf(rule, fold, l)[Canon(rule, fold, q.key)] == l[i]
  {
    hide MapOf, Canon, Cmp;
    var c := Canon(rule, fold, q.key);
    MapDomain(rule, fold, l, c);
    forall i | 0 <= i < |l| ensures Cmp(rule, fold, l[i], q) == 0 <==> Canon(rule, fold, l[i].key) == c {
      CanonEqual(rule, fold, l[i], q);
    }
    forall i | 0 <= i < |l| && Cmp(rule, fold, l[i], q) == 0
      ensures c in MapOf(rule, fold, l) && MapOf(rule, fold, l)[c] == l[i]
    {
      MapAt(rule, fold, l, i);
    }
  }
}
