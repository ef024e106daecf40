/** Endpoint addresses with their total order, and endpoint metadata. */
module Endpoints {
  import opened Base

  /** A host name or an IP address; the constructors are in the order the source compares them. */
  datatype Host = Name(name: string) | V4(bits4: U32) | V6(bits6: U128)

  datatype Address = Address(host: Host, port: U16)

  /** A JSON value; Quilkin only ever compares these, and only with strings. */
  datatype Json = Str(value: string) | Other(text: string)

  /** `unknown` holds the metadata Quilkin does not interpret. */
  datatype Metadata = Metadata(tokens: set<Token>, unknown: map<string, Json>)

  datatype Endpoint = Endpoint(address: Address, metadata: Metadata)

  type EndpointMap = map<Address, Metadata>

  /** What routing can observe of an endpoint map: which tokens each address holds. */
  type TokenView = map<Address, set<Token>>

  function View(eps: EndpointMap): (v: TokenView)
    ensures v.Keys == eps.Keys
  {
    map a | a in eps :: eps[a].tokens
  }

  // ---- The order of a BTreeMap keyed by address ----

  function Codes(s: string): seq<nat> {
    seq(|s|, i requires 0 <= i < |s| => s[i] as int)
  }

  function HostKey(h: Host): seq<nat> {
    match h
    case Name(s) => [0] + Codes(s)
    case V4(b) => [1, b]
    case V6(b) => [2, b]
  }

  predicate LexLeq(a: seq<nat>, b: seq<nat>) {
    a == [] || (b != [] && (a[0] < b[0] || (a[0] == b[0] && LexLeq(a[1..], b[1..]))))
  }

  predicate Leq(a: Address, b: Address) {
    if a.host == b.host then a.port <= b.port else LexLeq(HostKey(a.host), HostKey(b.host))
  }

  lemma HostKeyInjective(g: Host, h: Host)
    requires HostKey(g) == HostKey(h)
    ensures g == h
  {
    match g
    case Name(s) =>
      assert HostKey(g)[0] == 0 && HostKey(h)[0] == 0;
      assert h.Name?;
      assert HostKey(g)[1..] == Codes(s) && HostKey(h)[1..] == Codes(h.name);
      forall i | 0 <= i < |s| ensures s[i] == h.name[i] {
        assert Codes(s)[i] == Codes(h.name)[i];
      }
      assert s == h.name;
    case V4(b) => assert HostKey(g)[0] == 1 && HostKey(g)[1] == b;
    case V6(b) => assert HostKey(g)[0] == 2 && HostKey(g)[1] == b;
  }

  lemma {:induction false} LexOrder(a: seq<nat>, b: seq<nat>)
    ensures LexLeq(a, b) || LexLeq(b, a)
    ensures LexLeq(a, b) && LexLeq(b, a) ==> a == b
  {
    if a != [] && b != [] {
      LexOrder(a[1..], b[1..]);
      if a[0] == b[0] && a[1..] == b[1..] {
        assert a == [a[0]] + a[1..] && b == [b[0]] + b[1..];
      }
    }
  }

  lemma {:induction false} LexTransitive(a: seq<nat>, b: seq<nat>, c: seq<nat>)
    requires LexLeq(a, b) && LexLeq(b, c)
    ensures LexLeq(a, c)
  {
    if a != [] && a[0] == b[0] && b[0] == c[0] {
      LexTransitive(a[1..], b[1..], c[1..]);
    }
  }

  /** `Leq` is a total order on addresses. */
  lemma AddressOrder(a: Address, b: Address, c: Address)
    ensures Leq(a, a)
    ensures Leq(a, b) || Leq(b, a)
    ensures Leq(a, b) && Leq(b, a) ==> a == b
    ensures Leq(a, b) && Leq(b, c) ==> Leq(a, c)
  {
    LexOrder(HostKey(a.host), HostKey(b.host));
    if Leq(a, b) && Leq(b, a) && a.host != b.host {
      HostKeyInjective(a.host, b.host);
    }
    if Leq(a, b) && Leq(b, c) && a.host != b.host && b.host != c.host {
      LexTransitive(HostKey(a.host), HostKey(b.host), HostKey(c.host));
      if a.host == c.host {
        LexOrder(HostKey(a.host), HostKey(b.host));
        HostKeyInjective(a.host, b.host);
      }
    }
  }

  /** A name comes before its extensions, and otherwise by the character at the first difference. */
  ghost predicate NameBefore(s: string, t: string) {
    s < t || exists k :: 0 <= k < |s| && k < |t| && s[..k] == t[..k] && s[k] < t[k]
  }

  /**
   * Names come before IPv4 addresses and these before IPv6 addresses, smaller hosts first; on one
   * host the smaller port comes first.
   */
  lemma OrderMeans(a: Address, b: Address)
    ensures a.host == b.host ==> (Leq(a, b) <==> a.port <= b.port)
    ensures a.host.Name? && !b.host.Name? ==> Leq(a, b) && !Leq(b, a)
    ensures a.host.V4? && b.host.V6? ==> Leq(a, b) && !Leq(b, a)
    ensures a.host.V4? && b.host.V4? && a.host.bits4 < b.host.bits4 ==> Leq(a, b) && !Leq(b, a)
    ensures a.host.V6? && b.host.V6? && a.host.bits6 < b.host.bits6 ==> Leq(a, b) && !Leq(b, a)
    ensures a.host.Name? && b.host.Name? && NameBefore(a.host.name, b.host.name) ==> Leq(a, b) && !Leq(b, a)
  {
    var x, y := HostKey(a.host), HostKey(b.host);
    if a.host.Name? && b.host.Name? {
      if NameBefore(a.host.name, b.host.name) {
        NamesDiffer(a.host.name, b.host.name);
      }
    } else if x[0] == y[0] && x[1] < y[1] {
      FirstDifference(x, y, 1);
    }
  }

  lemma NamesDiffer(s: string, t: string)
    requires NameBefore(s, t)
    ensures LexLeq([0] + Codes(s), [0] + Codes(t)) && !LexLeq([0] + Codes(t), [0] + Codes(s))
  {
    var x, y := [0] + Codes(s), [0] + Codes(t);
    var k :| 0 <= k <= |s| && k < |t| && s[..k] == t[..k] && (k == |s| || s[k] < t[k]);
    assert forall i :: 0 <= i < k ==> s[..k][i] == t[..k][i];
    assert forall i :: 0 <= i < k ==> x[i + 1] == s[i] as int && y[i + 1] == t[i] as int;
    FirstDifference(x, y, k + 1);
  }

  lemma {:induction false} FirstDifference(a: seq<nat>, b: seq<nat>, k: nat)
    requires k <= |a| && k < |b| && (forall i :: 0 <= i < k ==> a[i] == b[i])
    requires k == |a| || a[k] < b[k]
    ensures LexLeq(a, b) && !LexLeq(b, a)
  {
    if k > 0 {
      FirstDifference(a[1..], b[1..], k - 1);
    }
  }

  ghost predicate IsFirst(a: Address, s: set<Address>) {
    a in s && forall b :: b in s ==> Leq(a, b)
  }

  lemma {:induction false} FirstExists(s: set<Address>)
    requires s != {}
    ensures exists a :: IsFirst(a, s)
  {
    var x :| x in s;
    var rest := s - {x};
    if rest == {} {
      assert s == {x};
      AddressOrder(x, x, x);
      assert IsFirst(x, s);
    } else {
      FirstExists(rest);
      var y :| IsFirst(y, rest);
      AddressOrder(x, y, x);
      var a := if Leq(x, y) then x else y;
      forall b | b in s ensures Leq(a, b) {
        if b == x { AddressOrder(a, x, x); } else { AddressOrder(x, y, b); }
      }
      assert IsFirst(a, s);
    }
  }

  /** The least address of a non-empty set. */
  ghost function First(s: set<Address>): (a: Address)
    requires s != {}
    ensures IsFirst(a, s)
  {
    FirstExists(s);
    var a :| IsFirst(a, s);
    a
  }

  lemma FirstUnique(a: Address, s: set<Address>)
    requires IsFirst(a, s)
    ensures First(s) == a
  {
    AddressOrder(a, First(s), a);
  }

  /** The keys in BTreeMap iteration order. */
  ghost function Ordered(s: set<Address>): (r: seq<Address>)
    ensures |r| == |s|
    ensures forall a :: a in r <==> a in s
    ensures forall i, j :: 0 <= i < j < |r| ==> Leq(r[i], r[j]) && r[i] != r[j]
    decreases s
  {
    if s == {} then [] else
    var a := First(s);
    [a] + Ordered(s - {a})
  }
}
