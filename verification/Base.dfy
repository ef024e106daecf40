/** Types and small facts shared by every component of the model. */
module Base {
  datatype Option<+T> = None | Some(value: T)

  datatype Result<+T, +E> = Ok(value: T) | Err(error: E)

  /** The source's unsigned integers. */
  type Byte = x: int | 0 <= x < 0x100
  type U16 = x: int | 0 <= x < 0x1_0000
  type U32 = x: int | 0 <= x < 0x1_0000_0000
  type U64 = x: int | 0 <= x < 0x1_0000_0000_0000_0000
  type U128 = x: int | 0 <= x < 0x1_0000_0000_0000_0000_0000_0000_0000_0000

  /** A routing token: an arbitrary byte string. */
  type Token = seq<Byte>

  /** gxhash64 is not modelled; it is any function into 64 bits. */
  type TokenHash = Token -> U64

  /** No two tokens of `tokens` share a hash. (Over all byte strings this cannot hold.) */
  ghost predicate InjectiveOn(hash: TokenHash, tokens: set<Token>) {
    forall s, t :: s in tokens && t in tokens && hash(s) == hash(t) ==> s == t
  }

  /** How many byte strings of length `n` there are. */
  function Pow256(n: nat): (p: nat)
    ensures p > 0
  {
    if n == 0 then 1 else 256 * Pow256(n - 1)
  }

  lemma DivUnique(v: int, d: int, q: int, r: int)
    requires v == d * q + r && 0 <= r < d
    ensures v / d == q
  {
    var p, s := v / d, v % d;
    assert v == d * p + s && 0 <= s < d;
    NoMultiple(d, p - q);
    assert d * (p - q) == d * p - d * q;
  }

  lemma NoMultiple(d: int, t: int)
    requires d > 0
    ensures t > 0 ==> d * t >= d
    ensures t < 0 ==> d * t <= -d
  {
    if t > 0 {
      assert d * (t - 1) >= 0;
    } else if t < 0 {
      assert d * (-t - 1) >= 0;
    }
  }

  /** Dropping one byte and then `n` more. */
  lemma DropBytes(v: int, n: nat)
    ensures v / 256 / Pow256(n) == v / Pow256(n + 1)
  {
    var d := Pow256(n);
    var q := v / 256;
    assert q == d * (q / d) + q % d;
    assert 256 * d * (q / d) == 256 * (d * (q / d));
    DivUnique(v, 256 * d, q / d, 256 * (q % d) + v % 256);
  }

  function Get<K, V>(m: map<K, V>, k: K): Option<V> {
    if k in m then Some(m[k]) else None
  }

  function GetOr<K, V>(m: map<K, V>, k: K, default: V): V {
    if k in m then m[k] else default
  }

  lemma SubsetCardinality<T>(a: set<T>, b: set<T>)
    requires a <= b
    ensures |a| <= |b|
    ensures |a| == |b| ==> a == b
  {
    assert b == a + (b - a);
  }

  lemma Elsewhere<K, V>(m: map<K, V>, k: K, v: V)
    ensures m[k := v] - {k} == m - {k}
    ensures m - {k} - {k} == m - {k}
  {}

  lemma EmptySeq<T(!new)>(s: seq<T>)
    ensures s == [] <==> forall x :: x !in s
  {
    if s != [] {
      assert s[0] in s;
    }
  }

  ghost predicate NoDuplicates<T>(s: seq<T>) {
    forall i, j :: 0 <= i < j < |s| ==> s[i] != s[j]
  }

  lemma NoDuplicatesAppend<T>(s: seq<T>, x: T)
    requires NoDuplicates(s) && x !in s
    ensures NoDuplicates(s + [x])
  {}

  /** Vec::swap_remove. */
  function SwapRemove<T>(s: seq<T>, i: nat): seq<T>
    requires i < |s|
  {
    var n := |s| - 1;
    if i == n then s[..n] else s[..n][i := s[n]]
  }

  lemma SwapRemoveDrops<T(!new)>(s: seq<T>, i: nat)
    requires i < |s| && NoDuplicates(s)
    ensures NoDuplicates(SwapRemove(s, i))
    ensures forall x :: x in SwapRemove(s, i) <==> x in s && x != s[i]
  {
    var n := |s| - 1;
    var r := SwapRemove(s, i);
    assert forall j :: 0 <= j < n ==> r[j] == if j == i then s[n] else s[j];
    forall x | x in s && x != s[i] ensures x in r {
      var j :| 0 <= j < |s| && s[j] == x;
      if j == n { assert r[i] == x; } else { assert r[j] == x; }
    }
  }
}
