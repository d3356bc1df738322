/** SoftEther's PACK container: the mutable builder, its wire format and the decoder. */
module PackCodec {
  import opened Bytes

  const INT := 0
  const DATA := 1
  const STR := 2
  const UNISTR := 3
  const INT64 := 4

  type Name = seq<byte>

  datatype Value = Value(typ: int, i: int, b: seq<byte>)

  /** The names in first-add order, and the values of each. */
  datatype Content = Content(names: seq<Name>, vals: map<Name, seq<Value>>)

  const EMPTY := Content([], map[])

  function Add(c: Content, n: Name, v: Value): Content {
    if n in c.vals then c.(vals := c.vals[n := c.vals[n] + [v]])
    else Content(c.names + [n], c.vals[n := [v]])
  }

  // ---------------------------------------------------------------- wire format

  function EncodeValue(v: Value): seq<byte> {
    if v.typ == INT then Put32(v.i)
    else if v.typ == INT64 then Put64(v.i)
    else if v.typ == DATA || v.typ == STR then Put32(|v.b|) + v.b
    else if v.typ == UNISTR then Put32(|v.b| + 1) + v.b + [0]
    else []
  }

  function EncodeValues(vs: seq<Value>): seq<byte> {
    if vs == [] then [] else EncodeValue(vs[0]) + EncodeValues(vs[1..])
  }

  function EncodeElement(n: Name, vs: seq<Value>): seq<byte>
    requires vs != []
  {
    Put32(|n| + 1) + n + Put32(vs[0].typ) + Put32(|vs|) + EncodeValues(vs)
  }

  /** Each name once, each with at least one value: what add keeps. */
  ghost predicate Built(c: Content) {
    && (forall n :: n in c.names <==> n in c.vals)
    && (forall n :: n in c.vals ==> c.vals[n] != [])
    && (forall i, j :: 0 <= i < j < |c.names| ==> c.names[i] != c.names[j])
  }

  function EncodeElements(names: seq<Name>, vals: map<Name, seq<Value>>): seq<byte>
    requires forall n :: n in names ==> n in vals && vals[n] != []
  {
    if names == [] then []
    else EncodeElement(names[0], vals[names[0]]) + EncodeElements(names[1..], vals)
  }

  function Marshal(c: Content): seq<byte>
    requires Built(c)
  {
    Put32(|c.names|) + EncodeElements(c.names, c.vals)
  }

  // ---------------------------------------------------------------- decoder

  function Read32(r: seq<byte>): Option<(nat, seq<byte>)> {
    if |r| < 4 then None else Some((Get32(r), r[4..]))
  }

  function ReadN(n: int, r: seq<byte>): Option<(seq<byte>, seq<byte>)>
    requires 0 <= n
  {
    if n > |r| then None else Some((r[..n], r[n..]))
  }

  function ReadValue(typ: int, r: seq<byte>): Option<(Value, seq<byte>)> {
    if typ == INT then
      match Read32(r) case None => None case Some((x, r')) => Some((Value(typ, x, []), r'))
    else if typ == INT64 then
      if |r| < 8 then None else Some((Value(typ, Get64(r), []), r[8..]))
    else if typ == DATA || typ == STR || typ == UNISTR then
      match Read32(r)
      case None => None
      case Some((n, r')) =>
        match ReadN(n, r') case None => None case Some((b, r'')) => Some((Value(typ, 0, b), r''))
    else None
  }

  function ReadValues(c: Content, n: Name, typ: int, num: nat, r: seq<byte>): Option<(Content, seq<byte>)>
    decreases num
  {
    if num == 0 then Some((c, r))
    else
      match ReadValue(typ, r)
      case None => None
      case Some((v, r')) => ReadValues(Add(c, n, v), n, typ, num - 1, r')
  }

  datatype Header = Header(name: Name, typ: nat, num: nat)

  function ReadHeader(r: seq<byte>): Option<(Header, seq<byte>)> {
    match Read32(r)
    case None => None
    case Some((nl, r1)) =>
      if nl == 0 || nl > 64 then None
      else
        match ReadN(nl - 1, r1)
        case None => None
        case Some((name, r2)) =>
          match Read32(r2)
          case None => None
          case Some((typ, r3)) =>
            match Read32(r3)
            case None => None
            case Some((num, r4)) => if num > 65536 then None else Some((Header(name, typ, num), r4))
  }

  function ReadElements(c: Content, count: nat, r: seq<byte>): Option<Content>
    decreases count
  {
    if count == 0 then Some(c)
    else
      match ReadHeader(r)
      case None => None
      case Some((h, r')) =>
        match ReadValues(c, h.name, h.typ, h.num, r')
        case None => None
        case Some((c', r'')) => ReadElements(c', count - 1, r'')
  }

  function Unmarshal(data: seq<byte>): Option<Content> {
    match Read32(data)
    case None => None
    case Some((count, r)) => if count > 4096 then None else ReadElements(EMPTY, count, r)
  }

  lemma ValuesFrom(vs: seq<Value>, j: nat)
    requires j < |vs|
    ensures EncodeValues(vs[j..]) == EncodeValue(vs[j]) + EncodeValues(vs[j + 1..])
  {
    assert vs[j..][1..] == vs[j + 1..];
  }

  // ---------------------------------------------------------------- the program

  class Pack {
    var names: seq<Name>
    var vals: map<Name, seq<Value>>

    constructor ()
      ensures View() == EMPTY
    {
      names, vals := [], map[];
    }

    ghost function View(): Content
      reads this
    {
      Content(names, vals)
    }

    method AddValue(n: Name, v: Value)
      modifies this
      ensures View() == Add(old(View()), n, v)
      ensures old(Built(View())) ==> Built(View())
    {
      if Built(View()) { AddBuilt(View(), n, v); }
      if n !in vals {
        names := names + [n];
        vals := vals[n := []];
      }
      vals := vals[n := vals[n] + [v]];
      assert View() == Add(old(View()), n, v) by {
        assert [] + [v] == [v];
        assert View().vals == Add(old(View()), n, v).vals;
      }
    }

    method MarshalValues(vs: seq<Value>) returns (b: seq<byte>)
      ensures b == EncodeValues(vs)
    {
      b := [];
      for j := 0 to |vs|
        invariant b + EncodeValues(vs[j..]) == EncodeValues(vs)
      {
        hide EncodeValue, EncodeValues;
        ValuesFrom(vs, j);
        Assoc3(b, EncodeValue(vs[j]), EncodeValues(vs[j + 1..]));
        b := b + EncodeValue(vs[j]);
      }
      assert b + [] == b;
    }

    method MarshalElement(n: Name, vs: seq<Value>) returns (b: seq<byte>)
      requires vs != []
      ensures b == EncodeElement(n, vs)
    {
      b := Put32(|n| + 1);
      b := b + n;
      b := b + Put32(vs[0].typ);
      b := b + Put32(|vs|);
      var body := MarshalValues(vs);
      b := b + body;
    }

    method MarshalPack() returns (b: seq<byte>)
      requires Built(View())
      ensures b == Marshal(View())
    {
      hide Put32, EncodeElement;
      b := Put32(|names|);
      assert names[0..] == names;
      for i := 0 to |names|
        invariant b + EncodeElements(names[i..], vals) == Marshal(View())
      {
        assert names[i..][1..] == names[i + 1..];
        assert EncodeElements(names[i..], vals)
               == EncodeElement(names[i], vals[names[i]]) + EncodeElements(names[i + 1..], vals);
        var e := MarshalElement(names[i], vals[names[i]]);
        b := b + e;
      }
      assert b + [] == b;
    }
  }

  /** The inner loop of unmarshalPack. */
  method DecodeValues(p: Pack, n: Name, typ: int, num: nat, r0: seq<byte>) returns (ok: bool, r: seq<byte>)
    modifies p
    ensures ReadValues(old(p.View()), n, typ, num, r0) == if ok then Some((p.View(), r)) else None
  {
    r := r0;
    for j := 0 to num
      invariant ReadValues(old(p.View()), n, typ, num, r0) == ReadValues(p.View(), n, typ, num - j, r)
    {
      var v := ReadValue(typ, r);
      if v.None? { return false, r; }
      p.AddValue(n, v.value.0);
      r := v.value.1;
    }
    ok := true;
  }

  /** unmarshalPack, filling a fresh pack; it is in bounds and ends on every input. */
  method UnmarshalPack(data: seq<byte>) returns (p: Pack, ok: bool)
    ensures fresh(p)
    ensures Unmarshal(data) == if ok then Some(p.View()) else None
  {
    hide ReadHeader, ReadValues, Get32;
    p := new Pack();
    var first := Read32(data);
    if first.None? || first.value.0 > 4096 { return p, false; }
    var r := first.value.1;
    var count: nat := first.value.0;
    for i := 0 to count
      invariant Unmarshal(data) == ReadElements(p.View(), count - i, r)
    {
      var h := ReadHeader(r);
      if h.None? { return p, false; }
      var (head, r1) := h.value;
      var got, r2 := DecodeValues(p, head.name, head.typ, head.num, r1);
      if !got { return p, false; }
      r := r2;
    }
    ok := true;
  }

  // ---------------------------------------------------------------- what add builds

  lemma AddBuilt(c: Content, n: Name, v: Value)
    requires Built(c)
    ensures Built(Add(c, n, v))
  {
    var d := Add(c, n, v);
    if n !in c.vals {
      assert d.names[|c.names|] == n;
      assert forall m :: m in d.names <==> m in c.names || m == n;
    }
  }

  function AddAll(c: Content, n: Name, vs: seq<Value>): Content
    decreases |vs|
  {
    if vs == [] then c else AddAll(Add(c, n, vs[0]), n, vs[1..])
  }

  lemma {:induction false} AddAllExtends(c: Content, n: Name, vs: seq<Value>)
    requires n in c.vals
    ensures AddAll(c, n, vs) == c.(vals := c.vals[n := c.vals[n] + vs])
    decreases |vs|
  {
    if vs == [] {
      assert c.vals[n] + vs == c.vals[n];
    } else {
      var d := Add(c, n, vs[0]);
      AddAllExtends(d, n, vs[1..]);
      assert d.vals[n] + vs[1..] == c.vals[n] + vs;
      assert d.vals[n := d.vals[n] + vs[1..]] == c.vals[n := c.vals[n] + vs];
    }
  }

  lemma AddAllFresh(c: Content, n: Name, vs: seq<Value>)
    requires n !in c.vals && vs != []
    ensures AddAll(c, n, vs) == Content(c.names + [n], c.vals[n := vs])
  {
    AddAllExtends(Add(c, n, vs[0]), n, vs[1..]);
    assert [vs[0]] + vs[1..] == vs;
  }

  /** The pack built by a list of add calls. */
  function Build(adds: seq<(Name, Value)>): Content {
    if adds == [] then EMPTY
    else
      var last := adds[|adds| - 1];
      Add(Build(adds[..|adds| - 1]), last.0, last.1)
  }

  /** The values added under a name, in order. */
  function Under(adds: seq<(Name, Value)>, n: Name): seq<Value> {
    if adds == [] then []
    else
      var last := adds[|adds| - 1];
      Under(adds[..|adds| - 1], n) + if last.0 == n then [last.1] else []
  }

  function FirstIndex(adds: seq<(Name, Value)>, n: Name): (k: nat)
    ensures k <= |adds| && (k < |adds| ==> adds[k].0 == n)
    ensures forall i :: 0 <= i < k ==> adds[i].0 != n
  {
    if adds == [] then 0 else if adds[0].0 == n then 0 else 1 + FirstIndex(adds[1..], n)
  }

  /** A built pack holds, per name, exactly the values added under it, in order. */
  lemma {:induction false} BuildValues(adds: seq<(Name, Value)>)
    ensures Built(Build(adds))
    ensures forall n :: n in Build(adds).vals <==> Under(adds, n) != []
    ensures forall n :: n in Build(adds).vals ==> Build(adds).vals[n] == Under(adds, n)
  {
    hide Built;
    if adds == [] {
      assert Built(EMPTY) by { BuiltEmpty(); }
    } else {
      var init, last := adds[..|adds| - 1], adds[|adds| - 1];
      BuildValues(init);
      AddBuilt(Build(init), last.0, last.1);
    }
  }

  lemma BuiltEmpty()
    ensures Built(EMPTY)
  {
  }

  /** A built pack lists its names in the order of their first add. */
  lemma {:induction false} BuildOrder(adds: seq<(Name, Value)>)
    ensures forall n :: n in Build(adds).vals <==> FirstIndex(adds, n) < |adds|
    ensures forall i, j :: 0 <= i < j < |Build(adds).names| ==>
              FirstIndex(adds, Build(adds).names[i]) < FirstIndex(adds, Build(adds).names[j])
  {
    hide Built, FirstIndex;
    if adds != [] {
      var init, last := adds[..|adds| - 1], adds[|adds| - 1];
      assert adds == init + [last];
      BuildOrder(init);
      BuildValues(init);
      forall n: Name
        ensures FirstIndex(adds, n) == if FirstIndex(init, n) < |init| then FirstIndex(init, n)
                                       else if last.0 == n then |init| else |adds|
      {
        FirstIndexSnoc(init, last, n);
      }
      BuiltNames(Build(init));
    }
  }

  lemma BuiltNames(c: Content)
    requires Built(c)
    ensures forall i :: 0 <= i < |c.names| ==> c.names[i] in c.vals
  {
  }

  lemma {:induction false} FirstIndexSnoc(adds: seq<(Name, Value)>, x: (Name, Value), n: Name)
    ensures FirstIndex(adds + [x], n) == if FirstIndex(adds, n) < |adds| then FirstIndex(adds, n)
                                         else if x.0 == n then |adds| else |adds| + 1
  {
    if adds == [] {
      assert adds + [x] == [x];
      assert [x][1..] == [];
    } else if adds[0].0 != n {
      assert (adds + [x])[1..] == adds[1..] + [x];
      FirstIndexSnoc(adds[1..], x, n);
    }
  }

  // ---------------------------------------------------------------- round trip

  /** A value that fits its fields and leaves the unused one empty. */
  ghost predicate Canonical(v: Value) {
    || (v.typ == INT && 0 <= v.i < TWO32 && v.b == [])
    || (v.typ == INT64 && 0 <= v.i < TWO64 && v.b == [])
    || ((v.typ == DATA || v.typ == STR) && v.i == 0 && |v.b| < TWO32)
    || (v.typ == UNISTR && v.i == 0 && |v.b| + 1 < TWO32)
  }

  /** What the decoder gives back for a value: Unicode strings gain their NUL. */
  function Echo(v: Value): Value {
    if v.typ == UNISTR then v.(b := v.b + [0]) else v
  }

  function EchoAll(vs: seq<Value>): (r: seq<Value>)
    ensures |r| == |vs| && forall i :: 0 <= i < |vs| ==> r[i] == Echo(vs[i])
  {
    if vs == [] then [] else [Echo(vs[0])] + EchoAll(vs[1..])
  }

  /** One type per name, and sizes within the decoder's limits. */
  ghost predicate Encodable(c: Content) {
    && Built(c) && |c.names| <= 4096
    && forall n :: n in c.vals ==>
         && |n| < 64 && |c.vals[n]| <= 65536
         && forall i :: 0 <= i < |c.vals[n]| ==> c.vals[n][i].typ == c.vals[n][0].typ && Canonical(c.vals[n][i])
  }

  lemma Read32Put32(n: int, rest: seq<byte>)
    requires 0 <= n < TWO32
    ensures Read32(Put32(n) + rest) == Some((n, rest))
  {
    Get32Put32(n, rest);
  }

  lemma ReadEncodedValue(v: Value, rest: seq<byte>)
    requires Canonical(v)
    ensures ReadValue(v.typ, EncodeValue(v) + rest) == Some((Echo(v), rest))
  {
    hide Put32, Get32, Read32, Put64, Get64;
    var r := EncodeValue(v) + rest;
    if v.typ == INT {
      Read32Put32(v.i, rest);
    } else if v.typ == INT64 {
      Get64Put64(v.i, rest);
      assert r[8..] == rest;
    } else if v.typ == UNISTR {
      var b := v.b + [0];
      assert r == Put32(|b|) + (b + rest);
      Read32Put32(|b|, b + rest);
      assert (b + rest)[..|b|] == b && (b + rest)[|b|..] == rest;
    } else {
      assert r == Put32(|v.b|) + (v.b + rest);
      Read32Put32(|v.b|, v.b + rest);
      assert (v.b + rest)[..|v.b|] == v.b && (v.b + rest)[|v.b|..] == rest;
    }
  }

  lemma {:induction false} ReadEncodedValues(c: Content, n: Name, typ: int, vs: seq<Value>, rest: seq<byte>)
    requires forall i :: 0 <= i < |vs| ==> vs[i].typ == typ && Canonical(vs[i])
    ensures ReadValues(c, n, typ, |vs|, EncodeValues(vs) + rest) == Some((AddAll(c, n, EchoAll(vs)), rest))
    decreases |vs|
  {
    hide EncodeValue, ReadValue, Canonical, Add;
    if vs == [] {
      assert EncodeValues(vs) + rest == rest;
    } else {
      var more := EncodeValues(vs[1..]) + rest;
      assert EncodeValues(vs) + rest == EncodeValue(vs[0]) + more;
      ReadEncodedValue(vs[0], more);
      ReadEncodedValues(Add(c, n, Echo(vs[0])), n, typ, vs[1..], rest);
      assert EchoAll(vs)[1..] == EchoAll(vs[1..]);
    }
  }

  lemma ReadEncodedHeader(n: Name, typ: int, num: int, rest: seq<byte>)
    requires |n| < 64 && 0 <= typ < TWO32 && 0 <= num <= 65536
    ensures ReadHeader(Put32(|n| + 1) + n + Put32(typ) + Put32(num) + rest) == Some((Header(n, typ, num), rest))
  {
    hide Put32, Get32, Read32;
    var r2 := Put32(typ) + (Put32(num) + rest);
    assert Put32(|n| + 1) + n + Put32(typ) + Put32(num) + rest == Put32(|n| + 1) + (n + r2);
    Read32Put32(|n| + 1, n + r2);
    assert (n + r2)[..|n|] == n && (n + r2)[|n|..] == r2;
    Read32Put32(typ, Put32(num) + rest);
    Read32Put32(num, rest);
  }

  /** The first k names of c, with echoed values. */
  function Echoed(c: Content, k: nat): Content
    requires k <= |c.names| && forall n :: n in c.names ==> n in c.vals
  {
    Content(c.names[..k], map n | n in c.names[..k] :: EchoAll(c.vals[n]))
  }

  lemma EchoedStep(c: Content, k: nat)
    requires Built(c) && k < |c.names|
    ensures var n := c.names[k];
            AddAll(Echoed(c, k), n, EchoAll(c.vals[n])) == Echoed(c, k + 1)
  {
    hide AddAll, EchoAll, Built;
    NamesSplit(c, k);
    var n := c.names[k];
    var e, f := Echoed(c, k), Echoed(c, k + 1);
    AddAllFresh(e, n, EchoAll(c.vals[n]));
    assert f.names == e.names + [n];
    assert f.vals == e.vals[n := EchoAll(c.vals[n])];
  }

  lemma NamesSplit(c: Content, k: nat)
    requires Built(c) && k < |c.names|
    ensures (forall m :: m in c.names ==> m in c.vals) && c.vals[c.names[k]] != []
    ensures c.names[..k + 1] == c.names[..k] + [c.names[k]]
    ensures c.names[k] !in c.names[..k]
    ensures forall m :: m in c.names[..k + 1] <==> m in c.names[..k] || m == c.names[k]
  {
    assert c.names[k] in c.names;
  }

  /** What Encodable says of one name. */
  lemma EncodableAt(c: Content, k: nat)
    requires Encodable(c) && k < |c.names|
    ensures c.names[k] in c.vals
    ensures var vs := c.vals[c.names[k]];
            && vs != [] && |c.names[k]| < 64 && |vs| <= 65536 && 0 <= vs[0].typ < TWO32
            && forall i :: 0 <= i < |vs| ==> vs[i].typ == vs[0].typ && Canonical(vs[i])
  {
    var n := c.names[k];
    assert n in c.names && n in c.vals;
    assert Canonical(c.vals[n][0]);
  }

  ghost predicate Listed(names: seq<Name>, vals: map<Name, seq<Value>>) {
    forall n :: n in names ==> n in vals && vals[n] != []
  }

  /** One encoded element, read into the pack so far. */
  lemma ReadEncodedElement(c: Content, k: nat, count: nat, later: seq<byte>)
    requires Encodable(c) && k < |c.names|
    ensures c.names[k] in c.vals && c.vals[c.names[k]] != []
    ensures ReadElements(Echoed(c, k), count + 1, EncodeElement(c.names[k], c.vals[c.names[k]]) + later)
            == ReadElements(Echoed(c, k + 1), count, later)
  {
    hide EncodeValues, ReadHeader, ReadValues, Echoed, EchoAll, AddAll, Canonical, Put32, Get32;
    EncodableAt(c, k);
    var n := c.names[k];
    var vs := c.vals[n];
    assert EncodeElement(n, vs) + later
           == Put32(|n| + 1) + n + Put32(vs[0].typ) + Put32(|vs|) + (EncodeValues(vs) + later);
    ReadEncodedHeader(n, vs[0].typ, |vs|, EncodeValues(vs) + later);
    ReadEncodedValues(Echoed(c, k), n, vs[0].typ, vs, later);
    EchoedStep(c, k);
  }

  lemma {:induction false} ReadEncodedElements(c: Content, k: nat, rest: seq<byte>)
    requires Encodable(c) && k <= |c.names| && Listed(c.names[k..], c.vals)
    ensures ReadElements(Echoed(c, k), |c.names| - k, EncodeElements(c.names[k..], c.vals) + rest)
            == Some(Echoed(c, |c.names|))
    decreases |c.names| - k
  {
    hide EncodeElement, Echoed, ReadHeader, ReadValues;
    if k < |c.names| {
      var n := c.names[k];
      var later := EncodeElements(c.names[k + 1..], c.vals) + rest;
      assert c.names[k..][1..] == c.names[k + 1..];
      ReadEncodedElement(c, k, |c.names| - k - 1, later);
      assert EncodeElements(c.names[k..], c.vals) + rest == EncodeElement(n, c.vals[n]) + later;
      ReadEncodedElements(c, k + 1, rest);
    } else {
      assert EncodeElements(c.names[k..], c.vals) + rest == rest;
    }
  }

  /** The same names in the same order, each value echoed. */
  function EchoPack(c: Content): Content {
    Content(c.names, map n | n in c.vals :: EchoAll(c.vals[n]))
  }

  /** Decoding a marshalled pack, with anything after it, gives the pack back but for the Unicode NULs. */
  lemma RoundTrip(c: Content, rest: seq<byte>)
    requires Encodable(c)
    ensures Unmarshal(Marshal(c) + rest)
            == Some(EchoPack(c))
  {
    hide EncodeElements, ReadElements, EchoAll, Put32, Get32, Read32, Canonical;
    var body := EncodeElements(c.names, c.vals) + rest;
    assert Marshal(c) + rest == Put32(|c.names|) + body;
    Read32Put32(|c.names|, body);
    assert c.names[0..] == c.names;
    assert Echoed(c, 0) == EMPTY;
    ReadEncodedElements(c, 0, rest);
    assert Unmarshal(Marshal(c) + rest) == ReadElements(EMPTY, |c.names|, body);
    assert c.names[..|c.names|] == c.names;
    assert Echoed(c, |c.names|).vals == EchoPack(c).vals;
  }

  // ---------------------------------------------------------------- what the decoder accepts

  /** An element on the wire: its name, and its values, which share a type. */
  datatype Element = Element(name: Name, typ: int, vals: seq<Value>)

  /** A value as the decoder holds it, in the bytes of its type number. */
  function ValueBytes(v: Value): seq<byte> {
    match v.typ
    case 0 => Put32(v.i)
    case 4 => Put64(v.i)
    case _ => Put32(|v.b|) + v.b
  }

  ghost predicate Held(v: Value, typ: int) {
    && v.typ == typ
    && match typ
       case 0 => 0 <= v.i < TWO32 && v.b == []
       case 4 => 0 <= v.i < TWO64 && v.b == []
       case 1 => v.i == 0 && |v.b| < TWO32
       case 2 => v.i == 0 && |v.b| < TWO32
       case 3 => v.i == 0 && |v.b| < TWO32
       case _ => false
  }

  function ValuesBytes(vs: seq<Value>): seq<byte> {
    if vs == [] then [] else ValueBytes(vs[0]) + ValuesBytes(vs[1..])
  }

  function ElementBytes(e: Element): seq<byte> {
    Put32(|e.name| + 1) + e.name + Put32(e.typ) + Put32(|e.vals|) + ValuesBytes(e.vals)
  }

  function ElementsBytes(es: seq<Element>): seq<byte> {
    if es == [] then [] else ElementBytes(es[0]) + ElementsBytes(es[1..])
  }

  ghost predicate AllHeld(vs: seq<Value>, typ: int) {
    forall i :: 0 <= i < |vs| ==> Held(vs[i], typ)
  }

  ghost predicate WithinLimits(es: seq<Element>) {
    forall i :: 0 <= i < |es| ==>
      |es[i].name| <= 63 && 0 <= es[i].typ < TWO32 && |es[i].vals| <= 65536 && AllHeld(es[i].vals, es[i].typ)
  }

  /** Everything added, element by element. */
  function Gather(c: Content, es: seq<Element>): Content
    decreases |es|
  {
    if es == [] then c else Gather(AddAll(c, es[0].name, es[0].vals), es[1..])
  }

  lemma ReadHeldValue(v: Value, typ: int, rest: seq<byte>)
    requires Held(v, typ)
    ensures ReadValue(typ, ValueBytes(v) + rest) == Some((v, rest))
  {
    hide Put32, Get32, Read32, Put64, Get64;
    var r := ValueBytes(v) + rest;
    if typ == 0 {
      Read32Put32(v.i, rest);
    } else if typ == 4 {
      Get64Put64(v.i, rest);
      assert r[8..] == rest;
    } else {
      assert r == Put32(|v.b|) + (v.b + rest);
      Read32Put32(|v.b|, v.b + rest);
      assert (v.b + rest)[..|v.b|] == v.b && (v.b + rest)[|v.b|..] == rest;
    }
  }

  lemma Read32Is(r: seq<byte>)
    requires Read32(r).Some?
    ensures var (n, rest) := Read32(r).value; 0 <= n < TWO32 && r == Put32(n) + rest
  {
    hide Put32, Get32;
    PutGet32(r);
    var n := Get32(r);
    GetRange(r);
  }

  lemma GetRange(r: seq<byte>)
    requires |r| >= 4
    ensures 0 <= Get32(r) < TWO32
  {
  }

  lemma Get64Is(r: seq<byte>)
    requires |r| >= 8
    ensures 0 <= Get64(r) < TWO64 && r == Put64(Get64(r)) + r[8..]
  {
    BigEndian(r[..8], r[8..]);
    assert r[..8] + r[8..] == r;
    hide Put32, Get32;
    assert r[4..][..4] == r[..8][4..] && r[..4] == r[..8][..4];
    FrontOnly(r[..4], r[4..]);
    FrontOnly(r[4..8], r[8..]);
    assert r[..4] + r[4..] == r && r[4..8] + r[8..] == r[4..];
    assert r[..8][4..] == r[4..8] && r[..8][..4] == r[..4] && r[4..8][..4] == r[4..8];
  }

  lemma ValueWas(typ: int, r: seq<byte>)
    requires ReadValue(typ, r).Some?
    ensures var (v, rest) := ReadValue(typ, r).value; Held(v, typ) && r == ValueBytes(v) + rest
  {
    hide Put32, Get32, Read32, Put64, Get64;
    if typ == INT64 {
      Get64Is(r);
    } else {
      Read32Is(r);
      if typ != INT {
        var (n, r') := Read32(r).value;
        assert r' == r'[..n] + r'[n..];
        Assoc3(Put32(n), r'[..n], r'[n..]);
      }
    }
  }

  lemma {:induction false} ReadHeldValues(c: Content, n: Name, typ: int, vs: seq<Value>, rest: seq<byte>)
    requires AllHeld(vs, typ)
    ensures ReadValues(c, n, typ, |vs|, ValuesBytes(vs) + rest) == Some((AddAll(c, n, vs), rest))
    decreases |vs|
  {
    hide ValueBytes, ReadValue, Held, Add;
    if vs == [] {
      assert ValuesBytes(vs) + rest == rest;
    } else {
      var more := ValuesBytes(vs[1..]) + rest;
      assert ValuesBytes(vs) + rest == ValueBytes(vs[0]) + more;
      ReadHeldValue(vs[0], typ, more);
      ReadHeldValues(Add(c, n, vs[0]), n, typ, vs[1..], rest);
    }
  }

  lemma {:induction false} ValuesWere(c: Content, n: Name, typ: int, num: nat, r: seq<byte>) returns (vs: seq<Value>)
    requires ReadValues(c, n, typ, num, r).Some?
    ensures var (c', rest) := ReadValues(c, n, typ, num, r).value;
            |vs| == num && AllHeld(vs, typ) && r == ValuesBytes(vs) + rest && c' == AddAll(c, n, vs)
    decreases num
  {
    hide ValueBytes, ReadValue, Held, Add;
    if num == 0 {
      vs := [];
      assert ValuesBytes(vs) + r == r;
    } else {
      var (v, r') := ReadValue(typ, r).value;
      ValueWas(typ, r);
      var more := ValuesWere(Add(c, n, v), n, typ, num - 1, r');
      vs := [v] + more;
      assert vs[1..] == more;
      var rest := ReadValues(c, n, typ, num, r).value.1;
      Assoc3(ValueBytes(v), ValuesBytes(more), rest);
    }
  }

  lemma HeaderWas(r: seq<byte>)
    requires ReadHeader(r).Some?
    ensures var (h, rest) := ReadHeader(r).value;
            && |h.name| <= 63 && h.typ < TWO32 && h.num <= 65536
            && r == Put32(|h.name| + 1) + h.name + Put32(h.typ) + Put32(h.num) + rest
  {
    hide Put32, Get32, Read32;
    Read32Is(r);
    var (nl, r1) := Read32(r).value;
    var name, r2 := r1[..nl - 1], r1[nl - 1..];
    assert r1 == name + r2;
    Read32Is(r2);
    var (typ, r3) := Read32(r2).value;
    Read32Is(r3);
    var (num, r4) := Read32(r3).value;
    assert r == Put32(nl) + (name + (Put32(typ) + (Put32(num) + r4)));
  }

  lemma {:induction false} ElementsWere(c: Content, count: nat, r: seq<byte>)
    returns (es: seq<Element>, rest: seq<byte>)
    requires ReadElements(c, count, r).Some?
    ensures |es| == count && WithinLimits(es) && r == ElementsBytes(es) + rest
    ensures ReadElements(c, count, r).value == Gather(c, es)
    decreases count
  {
    hide ReadHeader, ReadValues, Put32, AllHeld, ValuesBytes, Add;
    if count == 0 {
      es, rest := [], r;
      assert ElementsBytes(es) + rest == r;
    } else {
      var (h, r') := ReadHeader(r).value;
      HeaderWas(r);
      var vs := ValuesWere(c, h.name, h.typ, h.num, r');
      var (c', r'') := ReadValues(c, h.name, h.typ, h.num, r').value;
      var more, end := ElementsWere(c', count - 1, r'');
      var e := Element(h.name, h.typ, vs);
      es, rest := [e] + more, end;
      assert es[1..] == more && es[0] == e;
      assert r == ElementBytes(e) + r'';
      Assoc3(ElementBytes(e), ElementsBytes(more), rest);
    }
  }

  lemma {:induction false} ElementsRead(c: Content, es: seq<Element>, rest: seq<byte>)
    requires WithinLimits(es)
    ensures ReadElements(c, |es|, ElementsBytes(es) + rest) == Some(Gather(c, es))
    decreases |es|
  {
    hide ReadHeader, ReadValues, Put32, AllHeld, ValuesBytes, Add;
    if es != [] {
      var e, more := es[0], ElementsBytes(es[1..]) + rest;
      assert ElementsBytes(es) + rest == ElementBytes(e) + more;
      assert ElementBytes(e) + more
             == Put32(|e.name| + 1) + e.name + Put32(e.typ) + Put32(|e.vals|) + (ValuesBytes(e.vals) + more);
      ReadEncodedHeader(e.name, e.typ, |e.vals|, ValuesBytes(e.vals) + more);
      ReadHeldValues(c, e.name, e.typ, e.vals, more);
      ElementsRead(AddAll(c, e.name, e.vals), es[1..], rest);
    }
  }

  /**
    The decoder accepts exactly the streams that start with a count and that many elements within
    the limits, and builds what adding their values in turn builds; what follows is ignored.
    */
  lemma UnmarshalExactly(data: seq<byte>, c: Content)
    ensures Unmarshal(data) == Some(c) <==>
            exists es: seq<Element>, rest: seq<byte> ::
              && |es| <= 4096 && WithinLimits(es)
              && data == Put32(|es|) + (ElementsBytes(es) + rest) && c == Gather(EMPTY, es)
  {
    hide Put32, Get32, Read32, WithinLimits, ElementsBytes, ReadElements, Gather;
    if es: seq<Element>, rest: seq<byte> :|
      && |es| <= 4096 && WithinLimits(es)
      && data == Put32(|es|) + (ElementsBytes(es) + rest) && c == Gather(EMPTY, es)
    {
      Read32Put32(|es|, ElementsBytes(es) + rest);
      ElementsRead(EMPTY, es, rest);
    }
    if Unmarshal(data) == Some(c) {
      Read32Is(data);
      var (count, r) := Read32(data).value;
      var es, rest := ElementsWere(EMPTY, count, r);
      assert data == Put32(|es|) + (ElementsBytes(es) + rest);
    }
  }

  /** The bytes of a pack with one name and one number, and of the other kinds of value. */
  lemma OnePack(n: Name, x: int, b: seq<byte>)
    requires |n| < 255 && 0 <= x < 256 && |b| < 255
    ensures EncodeElement(n, [Value(0, x, [])]) ==
            [0, 0, 0, |n| + 1] + n + [0, 0, 0, 0, 0, 0, 0, 1, 0, 0, 0, x]
    ensures EncodeElement(n, [Value(4, x, [])]) ==
            [0, 0, 0, |n| + 1] + n + [0, 0, 0, 4, 0, 0, 0, 1, 0, 0, 0, 0, 0, 0, 0, x]
    ensures EncodeElement(n, [Value(1, 0, b)]) ==
            [0, 0, 0, |n| + 1] + n + [0, 0, 0, 1, 0, 0, 0, 1, 0, 0, 0, |b|] + b
    ensures EncodeElement(n, [Value(2, 0, b)]) ==
            [0, 0, 0, |n| + 1] + n + [0, 0, 0, 2, 0, 0, 0, 1, 0, 0, 0, |b|] + b
    ensures EncodeElement(n, [Value(3, 0, b)]) ==
            [0, 0, 0, |n| + 1] + n + [0, 0, 0, 3, 0, 0, 0, 1, 0, 0, 0, |b| + 1] + b + [0]
  {
    hide Put32, Put64, EncodeValue;
    Small32(1);
    Small32(|n| + 1);
    forall v: Value
      ensures EncodeValues([v]) == EncodeValue(v)
    {
      OneValue(v);
    }
    OneOf(x, b);
    Small32(0);
    Small32(2);
    Small32(3);
    Small32(4);
  }

  lemma Small32(x: int)
    requires 0 <= x < 256
    ensures Put32(x) == [0, 0, 0, x]
  {
  }

  lemma OneValue(v: Value)
    ensures EncodeValues([v]) == EncodeValue(v)
  {
    assert [v][1..] == [];
    assert EncodeValue(v) + [] == EncodeValue(v);
  }

  lemma OneOf(x: int, b: seq<byte>)
    requires 0 <= x < 256 && |b| < 255
    ensures EncodeValue(Value(0, x, [])) == [0, 0, 0, x]
    ensures EncodeValue(Value(4, x, [])) == [0, 0, 0, 0, 0, 0, 0, x]
    ensures EncodeValue(Value(1, 0, b)) == EncodeValue(Value(2, 0, b)) == [0, 0, 0, |b|] + b
    ensures EncodeValue(Value(3, 0, b)) == [0, 0, 0, |b| + 1] + b + [0]
  {
    hide Put32;
    Small32(x);
    Small32(0);
    Small32(|b|);
    Small32(|b| + 1);
    assert x / TWO32 == 0;
  }
}
