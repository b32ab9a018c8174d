// The order in which findjsobjects keeps its groups (src/mdb_v8.c:4804-4842).

module Signatures {
  import opened OrderedTree

  // The fields of findjsobjects_obj_t that two objects must share to be grouped.
  datatype Signature = Signature(malformed: bool, props: seq<string>, nprops: nat, constructor_: string)

  // strcmp(), up to the magnitude of its result.
  function StrCmp(a: string, b: string): int {
    if a == "" then (if b == "" then 0 else -1)
    else if b == "" then 1
    else if a[0] != b[0] then (if a[0] < b[0] then -1 else 1)
    else StrCmp(a[1..], b[1..])
  }

  // Property lists compare by their first difference; a proper prefix comes first.
  function PropsCmp(a: seq<string>, b: seq<string>): int {
    if a == [] then (if b == [] then 0 else -1)
    else if b == [] then 1
    else if StrCmp(a[0], b[0]) != 0 then StrCmp(a[0], b[0])
    else PropsCmp(a[1..], b[1..])
  }

  // findjsobjects_cmp()
  function Cmp(l: Signature, r: Signature): int {
    if l.malformed != r.malformed then (if l.malformed then -1 else 1)
    else if PropsCmp(l.props, r.props) != 0 then PropsCmp(l.props, r.props)
    else if l.nprops > r.nprops then 1
    else if l.nprops < r.nprops then -1
    else StrCmp(l.constructor_, r.constructor_)
  }

  // The function as it is written, walking both property lists.
  method FindJsObjectsCmp(lhs: Signature, rhs: Signature) returns (c: int)
    ensures c == Cmp(lhs, rhs)
  {
    if lhs.malformed != rhs.malformed {
      return if lhs.malformed then -1 else 1;
    }
    var lprop, rprop := lhs.props, rhs.props;
    while lprop != [] && rprop != []
      invariant PropsCmp(lprop, rprop) == PropsCmp(lhs.props, rhs.props)
      decreases |lprop|
    {
      var rv := StrCmp(lprop[0], rprop[0]);
      if rv != 0 {
        StrCmpSign(lprop[0], rprop[0]);
        return if rv > 0 then 1 else -1;
      }
      lprop := lprop[1..];
      rprop := rprop[1..];
    }
    if lprop != [] {
      return 1;
    }
    if rprop != [] {
      return -1;
    }
    if lhs.nprops > rhs.nprops {
      return 1;
    }
    if lhs.nprops < rhs.nprops {
      return -1;
    }
    var rv := StrCmp(lhs.constructor_, rhs.constructor_);
    StrCmpSign(lhs.constructor_, rhs.constructor_);
    return if rv < 0 then -1 else if rv > 0 then 1 else 0;
  }

  lemma {:induction false} StrCmpSign(a: string, b: string)
    ensures -1 <= StrCmp(a, b) <= 1
    ensures StrCmp(a, b) == 0 <==> a == b
    ensures StrCmp(a, b) == -StrCmp(b, a)
  {
    if a != "" && b != "" {
      StrCmpSign(a[1..], b[1..]);
      assert a == [a[0]] + a[1..] && b == [b[0]] + b[1..];
    }
  }

  lemma CommonPrefixHasHead(a: string, b: string)
    requires a != "" && b != ""
    ensures forall k: nat | 0 < k <= |a| && k <= |b| && a[..k] == b[..k] :: a[0] == b[0]
  {
    forall k: nat | 0 < k <= |a| && k <= |b| && a[..k] == b[..k] ensures a[0] == b[0] {
      assert a[..k][0] == a[0] && b[..k][0] == b[0];
    }
  }

  // The order is that of the first difference, where the end of a string comes first.
  lemma {:induction false} StrCmpIsLexicographic(a: string, b: string)
    ensures StrCmp(a, b) < 0 <==>
              exists k: nat :: k <= |a| && k < |b| && a[..k] == b[..k] && (k == |a| || a[k] < b[k])
  {
    if a != "" && b != "" && a[0] == b[0] {
      StrCmpIsLexicographic(a[1..], b[1..]);
      if StrCmp(a[1..], b[1..]) < 0 {
        var k: nat :| k <= |a[1..]| && k < |b[1..]| && a[1..][..k] == b[1..][..k]
                      && (k == |a[1..]| || a[1..][k] < b[1..][k]);
        assert a[..k + 1] == [a[0]] + a[1..][..k] && b[..k + 1] == [b[0]] + b[1..][..k];
      }
      if k: nat :| k <= |a| && k < |b| && a[..k] == b[..k] && (k == |a| || a[k] < b[k]) {
        assert k > 0;
        assert a[1..][..k - 1] == a[..k][1..] && b[1..][..k - 1] == b[..k][1..];
      }
    } else if a != "" && b != "" {
      assert a[..0] == b[..0];
      CommonPrefixHasHead(a, b);
    } else {
      assert a[..0] == b[..0];
    }
  }

  lemma {:induction false} StrCmpTransitive(a: string, b: string, c: string)
    requires StrCmp(a, b) < 0 && StrCmp(b, c) < 0
    ensures StrCmp(a, c) < 0
  {
    if a != "" && a[0] == b[0] && b[0] == c[0] {
      StrCmpTransitive(a[1..], b[1..], c[1..]);
    }
  }

  lemma {:induction false} PropsCmpSign(a: seq<string>, b: seq<string>)
    ensures PropsCmp(a, b) == 0 <==> a == b
    ensures PropsCmp(a, b) == -PropsCmp(b, a)
  {
    if a != [] && b != [] {
      StrCmpSign(a[0], b[0]);
      PropsCmpSign(a[1..], b[1..]);
      assert a == [a[0]] + a[1..] && b == [b[0]] + b[1..];
    }
  }

  lemma {:induction false} PropsCmpTransitive(a: seq<string>, b: seq<string>, c: seq<string>)
    requires PropsCmp(a, b) < 0 && PropsCmp(b, c) < 0
    ensures PropsCmp(a, c) < 0
  {
    if a != [] {
      StrCmpSign(a[0], b[0]);
      StrCmpSign(b[0], c[0]);
      if StrCmp(a[0], b[0]) == 0 && StrCmp(b[0], c[0]) == 0 {
        PropsCmpTransitive(a[1..], b[1..], c[1..]);
      } else if StrCmp(a[0], b[0]) < 0 && StrCmp(b[0], c[0]) < 0 {
        StrCmpTransitive(a[0], b[0], c[0]);
      }
    }
  }

  lemma CmpSign(a: Signature, b: Signature)
    ensures Cmp(a, b) == 0 <==> a == b
    ensures Cmp(a, b) == -Cmp(b, a)
  {
    PropsCmpSign(a.props, b.props);
    StrCmpSign(a.constructor_, b.constructor_);
  }

  lemma CmpTransitive(a: Signature, b: Signature, c: Signature)
    requires Cmp(a, b) < 0 && Cmp(b, c) < 0
    ensures Cmp(a, c) < 0
  {
    PropsCmpSign(a.props, b.props);
    PropsCmpSign(b.props, c.props);
    if PropsCmp(a.props, b.props) < 0 && PropsCmp(b.props, c.props) < 0 {
      PropsCmpTransitive(a.props, b.props, c.props);
    }
    if StrCmp(a.constructor_, b.constructor_) < 0 && StrCmp(b.constructor_, c.constructor_) < 0 {
      StrCmpTransitive(a.constructor_, b.constructor_, c.constructor_);
    }
  }

  // The comparison is a total order, and is zero exactly on equal signatures.
  lemma CmpIsTotalOrder()
    ensures TotalOrder(Cmp)
  {
    forall a, b ensures Cmp(a, b) == 0 <==> a == b ensures Cmp(a, b) < 0 <==> Cmp(b, a) > 0 {
      CmpSign(a, b);
    }
    forall a, b, c | Cmp(a, b) < 0 && Cmp(b, c) < 0 ensures Cmp(a, c) < 0 {
      CmpTransitive(a, b, c);
    }
  }
}
