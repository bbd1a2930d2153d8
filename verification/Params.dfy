/** Binding parameters and writing them out behind an EXECUTE-STATEMENT: the same bytes a
    server would send for a row of these values. */
module Params {
  import opened Bytes
  import opened Text
  import opened Codec
  import opened Header
  import opened Replies

  /** A bound parameter. `target` is what its pointer leads to. */
  datatype Parameter = Parameter(kind: VkType, isNull: bool, target: Option<Value>)

  /** The copy kept of a bound value; images and types without a copy are dropped. */
  function Copy(t: VkType, v: Value): Option<Value> {
    if t in {VK_IMAGE, VK_TIME, VK_TEXT, VK_UNKNOW} then None else Some(v)
  }

  function Bound(t: VkType, v: Value): Parameter {
    if v.Null? then Parameter(t, true, None) else Parameter(t, false, Copy(t, v))
  }

  /** The bytes written for an object of type t. */
  function Serialized(t: VkType, target: Option<Value>): seq<byte> {
    if target.None? || t in {VK_IMAGE, VK_TIME, VK_TEXT, VK_UNKNOW} then [] else Payload(target.value)
  }

  function Written(p: Parameter): seq<byte> {
    if p.isNull then [STATUS_NULL] else [STATUS_VALUE] + Serialized(p.kind, p.target)
  }

  function Block(ps: seq<Parameter>): seq<byte> {
    if ps == [] then [] else Written(ps[0]) + Block(ps[1..])
  }

  predicate Serializable(p: Parameter) {
    p.target.Some? ==> !p.target.value.Null? && HasType(p.target.value, p.kind)
  }

  // ---------- The growing buffer ----------

  class Buffer {
    var data: array<byte>

    constructor ()
      ensures data.Length == 0 && fresh(data)
    {
      data := new byte[0];
    }

    /** realloc: n more bytes, the first ones kept. */
    method Grow(n: nat)
      modifies this
      ensures fresh(data) && data.Length == old(data.Length) + n
      ensures data[..old(data.Length)] == old(data[..])
    {
      var bigger := new byte[data.Length + n];
      forall i | 0 <= i < data.Length {
        bigger[i] := data[i];
      }
      data := bigger;
    }

    /** memcpy to position at. */
    method Put(at: nat, b: seq<byte>)
      requires at + |b| <= data.Length
      modifies data
      ensures data[..at] == old(data[..at]) && data[at..at + |b|] == b && data[at + |b|..] == old(data[at + |b|..])
    {
      forall i | 0 <= i < |b| {
        data[at + i] := b[i];
      }
    }

    method Append(b: seq<byte>)
      modifies this
      ensures fresh(data) && data[..] == old(data[..]) + b
    {
      var size := data.Length;
      Grow(|b|);
      Put(size, b);
      assert data[..] == data[..size] + data[size..];
    }

    /** Two fields, the second right behind the first. */
    method AppendTwo(a: seq<byte>, b: seq<byte>)
      modifies this
      ensures fresh(data) && data[..] == old(data[..]) + (a + b)
    {
      var size := data.Length;
      Grow(|a| + |b|);
      Put(size, a);
      ghost var front := data[..size + |a|];
      assert front == data[..size] + data[size..size + |a|];
      Put(size + |a|, b);
      assert data[..] == front + data[size + |a|..];
    }
  }

  /** Appends the object, field by field; nothing for images and unknown types. */
  method Serialize(buffer: Buffer, t: VkType, target: Option<Value>)
    requires Serializable(Parameter(t, false, target))
    modifies buffer
    ensures (fresh(buffer.data) || buffer.data == old(buffer.data))
            && buffer.data[..] == old(buffer.data[..]) + Serialized(t, target)
  {
    hide ToLe;
    if target.None? {
      return;
    }
    var o := target.value;
    match t
    case VK_BOOLEAN | VK_BYTE | VK_WORD | VK_LONG | VK_LONG8 | VK_REAL | VK_DURATION =>
      buffer.Append(o.raw);
    case VK_TIMESTAMP =>
      buffer.AppendTwo(ToLe(o.year, 2) + [o.month, o.day], ToLe(o.milli, 4));
    case VK_FLOAT =>
      buffer.AppendTwo(ToLe(o.exp, 4) + [o.sign] + ToLe(|o.digits|, 4), o.digits);
    case VK_STRING =>
      buffer.AppendTwo(ToLe(-(|o.units| / 2), 4), o.units);
    case VK_BLOB =>
      buffer.AppendTwo(ToLe(|o.data|, 4), o.data);
    case _ =>
  }

  method WriteParam(buffer: Buffer, p: Parameter)
    requires Serializable(p)
    modifies buffer
    ensures fresh(buffer.data) && buffer.data[..] == old(buffer.data[..]) + Written(p)
  {
    hide Serialized;
    if p.isNull {
      buffer.Append([STATUS_NULL]);
    } else {
      ghost var before := buffer.data[..];
      buffer.Append([STATUS_VALUE]);
      Serialize(buffer, p.kind, p.target);
      assert buffer.data[..] == before + ([STATUS_VALUE] + Serialized(p.kind, p.target));
    }
  }

  /** The data block of a query with parameters, and the list of their types. */
  method WriteParams(ps: seq<Parameter>) returns (data: seq<byte>, types: string)
    requires forall i :: 0 <= i < |ps| ==> Serializable(ps[i])
    ensures data == Block(ps)
    ensures types == TypesOf(ps)
  {
    hide Written, Block, TypesOf, StringFromType;
    var buffer := new Buffer();
    NoParams();
    types := "";
    assert ps[..0] == [] && ps[..|ps|] == ps;
    for i := 0 to |ps|
      invariant fresh(buffer.data) && buffer.data[..] == Block(ps[..i]) && types == TypesOf(ps[..i])
    {
      var p := ps[i];
      assert ps[..i + 1] == ps[..i] + [p];
      BlockAppend(ps[..i], p);
      types := types + " " + StringFromType(p.kind);
      WriteParam(buffer, p);
    }
    data := buffer.data[..];
  }

  lemma NoParams()
    ensures Block([]) == [] && TypesOf([]) == ""
  {
  }

  function TypesOf(ps: seq<Parameter>): string {
    if ps == [] then "" else " " + StringFromType(ps[0].kind) + TypesOf(ps[1..])
  }

  lemma {:induction false} BlockAppend(ps: seq<Parameter>, p: Parameter)
    ensures Block(ps + [p]) == Block(ps) + Written(p)
    ensures TypesOf(ps + [p]) == TypesOf(ps) + " " + StringFromType(p.kind)
  {
    hide Written, StringFromType;
    if ps == [] {
      assert ps + [p] == [p] && [p][1..] == [];
    } else {
      assert (ps + [p])[1..] == ps[1..] + [p];
      BlockAppend(ps[1..], p);
    }
  }

  // ---------- Binding ----------

  class Statement {
    var elmt: array<Parameter>
    var nbElement: nat

    ghost predicate Valid()
      reads this
    {
      nbElement <= elmt.Length
    }

    constructor ()
      ensures Valid() && nbElement == 0 && fresh(elmt)
    {
      elmt := new Parameter[5](_ => Parameter(VK_UNKNOW, false, None));
      nbElement := 0;
    }

    /** Binds one parameter, growing the table when it is full. */
    method BindParam(numParam: nat, t: VkType, v: Value)
      requires Valid()
      modifies this, elmt
      ensures Valid() && (elmt == old(elmt) || fresh(elmt))
      ensures nbElement == Max(old(nbElement), numParam + 1)
      ensures elmt[numParam] == Bound(t, v)
      ensures forall i :: 0 <= i < old(nbElement) && i != numParam ==> elmt[i] == old(elmt[i])
    {
      if numParam >= elmt.Length {
        var bigger := new Parameter[numParam + 5](_ => Parameter(VK_UNKNOW, false, None));
        forall i | 0 <= i < elmt.Length {
          bigger[i] := elmt[i];
        }
        elmt := bigger;
      }
      if numParam >= nbElement {
        nbElement := numParam + 1;
      }
      elmt[numParam] := Bound(t, v);
    }

    /** Binding a row of values in order, as the cursor does. */
    method BindAll(types: seq<VkType>, vs: seq<Value>)
      requires Valid() && nbElement == 0 && |types| == |vs|
      modifies this, elmt
      ensures Valid() && elmt[..nbElement] == BoundAll(types, vs)
    {
      for i := 0 to |vs|
        invariant Valid() && nbElement == i && (elmt == old(elmt) || fresh(elmt))
        invariant forall k :: 0 <= k < i ==> elmt[k] == Bound(types[k], vs[k])
      {
        BindParam(i, types[i], vs[i]);
      }
    }
  }

  // ---------- What was written reads back ----------

  function BoundAll(types: seq<VkType>, vs: seq<Value>): (ps: seq<Parameter>)
    requires |vs| == |types|
    ensures |ps| == |vs| && forall i :: 0 <= i < |ps| ==> ps[i] == Bound(types[i], vs[i])
  {
    seq(|vs|, i requires 0 <= i < |vs| => Bound(types[i], vs[i]))
  }

  lemma BoundSerializable(types: seq<VkType>, vs: seq<Value>)
    requires RowHasTypes(vs, types)
    ensures forall i :: 0 <= i < |vs| ==> Serializable(BoundAll(types, vs)[i])
  {
  }

  predicate NoImages(types: seq<VkType>, vs: seq<Value>)
    requires |vs| == |types|
  {
    forall i :: 0 <= i < |vs| ==> !ImageAt(types, vs, i)
  }

  lemma ImagesAfter(types: seq<VkType>, vs: seq<Value>)
    requires |vs| == |types| > 0
    ensures NoImages(types, vs) <==> !(types[0] == VK_IMAGE && !vs[0].Null?) && NoImages(types[1..], vs[1..])
  {
    if NoImages(types, vs) {
      assert !ImageAt(types, vs, 0);
      forall i | 0 <= i < |vs| - 1
        ensures !ImageAt(types[1..], vs[1..], i)
      {
        assert !ImageAt(types, vs, i + 1);
      }
    } else {
      var i :| 0 <= i < |vs| && ImageAt(types, vs, i);
      assert i > 0 ==> ImageAt(types[1..], vs[1..], i - 1);
    }
  }

  predicate ImageAt(types: seq<VkType>, vs: seq<Value>, i: nat)
    requires i < |vs| == |types|
  {
    types[i] == VK_IMAGE && !vs[i].Null?
  }

  lemma NoneAtAll(types: seq<VkType>, vs: seq<Value>)
    requires |vs| == |types| == 0
    ensures NoImages(types, vs)
  {
  }

  /** One value: an image is written as its status byte alone. */
  lemma OneWritten(t: VkType, v: Value)
    requires HasType(v, t)
    ensures t == VK_IMAGE && !v.Null? ==> |Written(Bound(t, v))| < |EncodeCell(v)|
    ensures !(t == VK_IMAGE && !v.Null?) ==> Written(Bound(t, v)) == EncodeCell(v)
  {
    hide ToLe;
  }

  lemma {:induction false} BlockSize(types: seq<VkType>, vs: seq<Value>)
    requires RowHasTypes(vs, types)
    ensures |Block(BoundAll(types, vs))| <= |EncodeCells(vs)|
    ensures |Block(BoundAll(types, vs))| == |EncodeCells(vs)| ==> NoImages(types, vs)
    ensures NoImages(types, vs) ==> Block(BoundAll(types, vs)) == EncodeCells(vs)
    decreases |vs|
  {
    hide Written, EncodeCell, HasType, Bound, NoImages;
    if vs == [] {
      assert NoImages(types, vs) by { NoneAtAll(types, vs); }
    }
    if vs != [] {
      assert HasType(vs[0], types[0]);
      OneWritten(types[0], vs[0]);
      assert BoundAll(types, vs)[1..] == BoundAll(types[1..], vs[1..]);
      BlockSize(types[1..], vs[1..]);
      ImagesAfter(types, vs);
    }
  }

  /** The block is the encoding of the values exactly when none of them is an image. */
  lemma BlockIsEncoding(types: seq<VkType>, vs: seq<Value>)
    requires RowHasTypes(vs, types)
    ensures Block(BoundAll(types, vs)) == EncodeCells(vs) <==> NoImages(types, vs)
  {
    BlockSize(types, vs);
  }

  /** Then the row decoder reads the values back and stops where the block ends. */
  lemma BlockDecodes(types: seq<VkType>, vs: seq<Value>, rest: seq<byte>)
    requires RowHasTypes(vs, types) && NoImages(types, vs)
    ensures DecodeCells(types, 0, Block(BoundAll(types, vs)) + rest, 0) == Ok(NormalCells(vs), rest)
  {
    BlockSize(types, vs);
    assert types[0..] == types;
    CellsDecode(types, 0, vs, rest, 0);
  }

  /** The type list splits into the names of the types, in order. */
  lemma {:induction false} TypesRead(ps: seq<Parameter>)
    ensures |Tokens(TypesOf(ps), ' ')| == |ps|
    ensures forall i :: 0 <= i < |ps| ==> Tokens(TypesOf(ps), ' ')[i] == StringFromType(ps[i].kind)
  {
    hide StringFromType;
    if ps != [] {
      var u, w := StringFromType(ps[0].kind), TypesOf(ps[1..]);
      TypeNameShape(ps[0].kind);
      TypesRead(ps[1..]);
      assert (" " + u + w)[1..] == u + w;
      if w == "" {
        assert u + w == u;
        TokensStep(u, ' ', "");
      } else {
        assert u + w == u + [' '] + w[1..];
        TokensStep(u, ' ', w[1..]);
      }
    }
  }

  /** Binding a row of values and writing the parameters out gives the row's encoding exactly
      when it holds no image. */
  method SendParams(types: seq<VkType>, vs: seq<Value>) returns (data: seq<byte>, list: string)
    requires RowHasTypes(vs, types)
    ensures data == EncodeCells(vs) <==> NoImages(types, vs)
    ensures list == TypesOf(BoundAll(types, vs))
  {
    hide Block, EncodeCells, NoImages, HasType, Bound;
    BoundSerializable(types, vs);
    BlockIsEncoding(types, vs);
    var statement := new Statement();
    statement.BindAll(types, vs);
    var ps := statement.elmt[..statement.nbElement];
    assert ps == BoundAll(types, vs);
    data, list := WriteParams(ps);
  }
}
