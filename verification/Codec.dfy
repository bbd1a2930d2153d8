/** The row format of the 4D SQL protocol: a pure decoder over a flat byte sequence,
    the grammar of the bytes it accepts, and the proof that the two agree. */
module Codec {
  import opened Bytes

  const MAX_STRING_CHARS := 0x0FFF_FFFF
  const MAX_BLOB_BYTES := 0x4000_0000
  const MAX_FLOAT_BYTES := 0x10_0000

  // Status bytes '0', '1' and '2'.
  const STATUS_NULL: byte := 48
  const STATUS_VALUE: byte := 49
  const STATUS_ERROR: byte := 50

  datatype VkType =
    | VK_UNKNOW | VK_BOOLEAN | VK_BYTE | VK_WORD | VK_LONG | VK_LONG8 | VK_REAL | VK_FLOAT
    | VK_TIME | VK_TIMESTAMP | VK_DURATION | VK_TEXT | VK_STRING | VK_BLOB | VK_IMAGE

  /** The size of a value of type t, -1 when it varies, 0 when the type is unknown. */
  function VkSizeof(t: VkType): int {
    match t
    case VK_BOOLEAN | VK_BYTE | VK_WORD => 2
    case VK_LONG => 4
    case VK_LONG8 | VK_REAL | VK_DURATION | VK_TIME | VK_TIMESTAMP => 8
    case VK_FLOAT | VK_TEXT | VK_STRING | VK_BLOB | VK_IMAGE => -1
    case VK_UNKNOW => 0
  }

  predicate IsFixed(t: VkType) {
    t in {VK_BOOLEAN, VK_BYTE, VK_WORD, VK_LONG, VK_LONG8, VK_REAL, VK_DURATION}
  }

  datatype Value =
    | Null
    | Fixed(raw: seq<byte>)
    | Stamp(year: int, month: byte, day: byte, milli: nat)
    | Float(exp: int, sign: byte, digits: seq<byte>)
    | Str(units: seq<byte>)
    | Blob(data: seq<byte>)

  /** v is null, or a value a column of type t can hold within the length caps. */
  predicate HasType(v: Value, t: VkType) {
    match v
    case Null => true
    case Fixed(raw) => IsFixed(t) && |raw| == VkSizeof(t)
    case Stamp(year, _, _, milli) => t == VK_TIMESTAMP && Fits(year, 2) && milli < Pow256(4)
    case Float(exp, _, digits) => t == VK_FLOAT && Fits(exp, 4) && |digits| <= MAX_FLOAT_BYTES
    case Str(units) => t == VK_STRING && |units| % 2 == 0 && |units| / 2 <= MAX_STRING_CHARS
    case Blob(data) => t in {VK_BLOB, VK_IMAGE} && |data| <= MAX_BLOB_BYTES
  }

  // ---------- Encoding ----------

  /** The bytes of a non-null value. */
  function Payload(v: Value): seq<byte> {
    match v
    case Null => []
    case Fixed(raw) => raw
    case Stamp(year, month, day, milli) => ToLe(year, 2) + [month, day] + ToLe(milli, 4)
    case Float(exp, sign, digits) => ToLe(exp, 4) + [sign] + ToLe(|digits|, 4) + digits
    case Str(units) => ToLe(-(|units| / 2), 4) + units
    case Blob(data) => ToLe(|data|, 4) + data
  }

  function EncodeCell(v: Value): seq<byte> {
    if v.Null? then [STATUS_NULL] else [STATUS_VALUE] + Payload(v)
  }

  function EncodeCells(vs: seq<Value>): seq<byte> {
    if vs == [] then [] else EncodeCell(vs[0]) + EncodeCells(vs[1..])
  }

  predicate RowHasTypes(vs: seq<Value>, types: seq<VkType>) {
    && |vs| == |types|
    && forall i :: 0 <= i < |vs| ==> HasType(vs[i], types[i])
  }

  /** What precedes the cells of a row: nothing, or for updateable results a status byte
      and possibly a 4-byte row id. */
  datatype RowPrefix = Absent | NoId | WithId(id: seq<byte>)

  datatype Row = Row(prefix: RowPrefix, cells: seq<Value>)

  predicate PrefixOk(p: RowPrefix, updateable: bool) {
    match p
    case Absent => !updateable
    case NoId => updateable
    case WithId(id) => updateable && |id| == 4
  }

  function EncodePrefix(p: RowPrefix): seq<byte> {
    match p
    case Absent => []
    case NoId => [STATUS_NULL]
    case WithId(id) => [STATUS_VALUE] + id
  }

  predicate RowOk(row: Row, types: seq<VkType>, updateable: bool) {
    PrefixOk(row.prefix, updateable) && RowHasTypes(row.cells, types)
  }

  predicate RowsOk(rows: seq<Row>, types: seq<VkType>, updateable: bool) {
    forall i :: 0 <= i < |rows| ==> RowOk(rows[i], types, updateable)
  }

  function EncodeRow(row: Row): seq<byte> {
    EncodePrefix(row.prefix) + EncodeCells(row.cells)
  }

  function EncodeRows(rows: seq<Row>): seq<byte> {
    if rows == [] then [] else EncodeRow(rows[0]) + EncodeRows(rows[1..])
  }

  /** A zero-length BLOB or IMAGE is delivered as NULL. */
  function Normal(v: Value): Value {
    if v.Blob? && v.data == [] then Null else v
  }

  function NormalCells(vs: seq<Value>): (r: seq<Value>)
    ensures |r| == |vs|
    ensures forall i :: 0 <= i < |vs| ==> r[i] == Normal(vs[i])
  {
    if vs == [] then [] else [Normal(vs[0])] + NormalCells(vs[1..])
  }

  /** The delivered cells, row after row, as the element table holds them. */
  function Cells(rows: seq<Row>): seq<Value> {
    if rows == [] then [] else NormalCells(rows[0].cells) + Cells(rows[1..])
  }

  // ---------- Decoding ----------

  datatype Fault =
    | ServerRowError | BadRowStatus | ServerColumnError | BadColumnStatus
    | BadFloatLength | BadStringLength | StringTooLong | BadBlobLength | BadColumnType

  /** Why a read stopped: the stream ended, or it was malformed at a row and column;
      `code` is the error code the result is left with. */
  datatype ReadError = Lost | Malformed(what: Fault, row: nat, col: nat, code: int)

  datatype Parsed<+T> = Ok(value: T, rest: seq<byte>) | Fail(error: ReadError)

  /** The 8-byte error code of a '2' status. The read is not checked, so fewer bytes may
      have arrived; a zero code is replaced by -1. */
  function ServerCode(s: seq<byte>): (code: int)
    ensures code != 0
  {
    var n := Min(8, |s|);
    var code := FromSignedLe(s[..n] + seq(8 - n, i => 0));
    if code == 0 then -1 else code
  }

  function DecodeFloat(s: seq<byte>, r: nat, c: nat): Parsed<Value> {
    if |s| < 9 then Fail(Lost) else
      var n := FromSignedLe(s[5..9]);
      if n < 0 || n > MAX_FLOAT_BYTES then Fail(Malformed(BadFloatLength, r, c, -1))
      else if |s| < 9 + n then Fail(Lost)
      else Ok(Float(FromSignedLe(s[..4]), s[4], s[9..9 + n]), s[9 + n..])
  }

  function DecodeString(s: seq<byte>, r: nat, c: nat): Parsed<Value> {
    if |s| < 4 then Fail(Lost) else
      var n := FromSignedLe(s[..4]);
      if n > 0 || n == -0x8000_0000 then Fail(Malformed(BadStringLength, r, c, -1))
      else if -n > MAX_STRING_CHARS then Fail(Malformed(StringTooLong, r, c, -1))
      else if |s| < 4 + 2 * -n then Fail(Lost)
      else Ok(Str(s[4..4 + 2 * -n]), s[4 + 2 * -n..])
  }

  function DecodeBlob(s: seq<byte>, r: nat, c: nat): Parsed<Value> {
    if |s| < 4 then Fail(Lost) else
      var n := FromSignedLe(s[..4]);
      if n < 0 || n > MAX_BLOB_BYTES then Fail(Malformed(BadBlobLength, r, c, -1))
      else if n == 0 then Ok(Null, s[4..])
      else if |s| < 4 + n then Fail(Lost)
      else Ok(Blob(s[4..4 + n]), s[4 + n..])
  }

  function DecodePayload(t: VkType, s: seq<byte>, r: nat, c: nat): Parsed<Value> {
    match t
    case VK_BOOLEAN | VK_BYTE | VK_WORD | VK_LONG | VK_LONG8 | VK_REAL | VK_DURATION =>
      var n := VkSizeof(t);
      if |s| < n then Fail(Lost) else Ok(Fixed(s[..n]), s[n..])
    case VK_TIMESTAMP =>
      if |s| < 8 then Fail(Lost)
      else Ok(Stamp(FromSignedLe(s[..2]), s[2], s[3], FromLe(s[4..8])), s[8..])
    case VK_FLOAT => DecodeFloat(s, r, c)
    case VK_STRING => DecodeString(s, r, c)
    case VK_BLOB | VK_IMAGE => DecodeBlob(s, r, c)
    case VK_UNKNOW | VK_TIME | VK_TEXT => Fail(Malformed(BadColumnType, r, c, -1))
  }

  function DecodeCell(t: VkType, s: seq<byte>, r: nat, c: nat): Parsed<Value> {
    if s == [] then Fail(Lost)
    else if s[0] == STATUS_NULL then Ok(Null, s[1..])
    else if s[0] == STATUS_ERROR then Fail(Malformed(ServerColumnError, r, c, ServerCode(s[1..])))
    else if s[0] != STATUS_VALUE then Fail(Malformed(BadColumnStatus, r, c, -1))
    else DecodePayload(t, s[1..], r, c)
  }

  function DecodePrefix(updateable: bool, s: seq<byte>, r: nat): Parsed<RowPrefix> {
    if !updateable then Ok(Absent, s)
    else if s == [] then Fail(Lost)
    else if s[0] == STATUS_NULL then Ok(NoId, s[1..])
    else if s[0] == STATUS_VALUE then
      if |s| < 5 then Fail(Lost) else Ok(WithId(s[1..5]), s[5..])
    else if s[0] == STATUS_ERROR then Fail(Malformed(ServerRowError, r, 0, ServerCode(s[1..])))
    else Fail(Malformed(BadRowStatus, r, 0, -1))
  }

  /** The cells of row r from column c on. */
  function DecodeCells(types: seq<VkType>, c: nat, s: seq<byte>, r: nat): Parsed<seq<Value>>
    requires c <= |types|
    decreases |types| - c
  {
    if c == |types| then Ok([], s) else
      match DecodeCell(types[c], s, r, c)
      case Fail(e) => Fail(e)
      case Ok(v, s1) => Prepend([v], DecodeCells(types, c + 1, s1, r))
  }

  function Prepend<T>(vs: seq<T>, p: Parsed<seq<T>>): Parsed<seq<T>> {
    match p
    case Ok(ws, rest) => Ok(vs + ws, rest)
    case Fail(e) => Fail(e)
  }

  /** Rows r up to n. */
  function DecodeRows(types: seq<VkType>, updateable: bool, r: nat, n: nat, s: seq<byte>): Parsed<seq<Value>>
    requires r <= n
    decreases n - r
  {
    if r == n then Ok([], s) else
      match DecodePrefix(updateable, s, r)
      case Fail(e) => Fail(e)
      case Ok(_, s1) =>
        match DecodeCells(types, 0, s1, r)
        case Fail(e) => Fail(e)
        case Ok(vs, s2) => Prepend(vs, DecodeRows(types, updateable, r + 1, n, s2))
  }

  /** The body of a result: with no column or no row nothing is read at all. */
  function DecodeBody(types: seq<VkType>, updateable: bool, n: nat, s: seq<byte>): Parsed<seq<Value>> {
    if |types| == 0 || n == 0 then Ok([], s) else DecodeRows(types, updateable, 0, n, s)
  }

  // ---------- The decoder accepts exactly the grammar ----------

  lemma CapsFit(n: int)
    requires -MAX_BLOB_BYTES <= n <= MAX_BLOB_BYTES
    ensures Fits(n, 4)
  {
    Pow256Values();
  }

  lemma StampDecodes(v: Value, rest: seq<byte>, r: nat, c: nat)
    requires v.Stamp? && HasType(v, VK_TIMESTAMP)
    ensures DecodePayload(VK_TIMESTAMP, Payload(v) + rest, r, c) == Ok(v, rest)
  {
    hide FromLe, ToLe, FromSignedLe, Pow256;
    SignedRoundTrip(v.year, 2);
    FromLeToLe(v.milli, 4);
    var s := Payload(v) + rest;
    assert s[..2] == ToLe(v.year, 2) && s[4..8] == ToLe(v.milli, 4) && s[8..] == rest;
  }

  lemma FloatDecodes(v: Value, rest: seq<byte>, r: nat, c: nat)
    requires v.Float? && HasType(v, VK_FLOAT)
    ensures DecodeFloat(Payload(v) + rest, r, c) == Ok(v, rest)
  {
    hide FromLe, ToLe, FromSignedLe, Pow256, Fits;
    var n := |v.digits|;
    CapsFit(n);
    SignedRoundTrip(v.exp, 4);
    SignedRoundTrip(n, 4);
    var s := Payload(v) + rest;
    assert s[..4] == ToLe(v.exp, 4) && s[5..9] == ToLe(n, 4);
    assert s[9..9 + n] == v.digits && s[9 + n..] == rest;
  }

  lemma StringDecodes(v: Value, rest: seq<byte>, r: nat, c: nat)
    requires v.Str? && HasType(v, VK_STRING)
    ensures DecodeString(Payload(v) + rest, r, c) == Ok(v, rest)
  {
    hide FromLe, ToLe, FromSignedLe, Pow256, Fits;
    var n := |v.units| / 2;
    CapsFit(-n);
    SignedRoundTrip(-n, 4);
    var s := Payload(v) + rest;
    assert s[..4] == ToLe(-n, 4);
    assert s[4..4 + 2 * n] == v.units && s[4 + 2 * n..] == rest;
  }

  lemma BlobDecodes(v: Value, rest: seq<byte>, r: nat, c: nat)
    requires v.Blob? && HasType(v, VK_BLOB)
    ensures DecodeBlob(Payload(v) + rest, r, c) == Ok(Normal(v), rest)
  {
    hide FromLe, ToLe, FromSignedLe, Pow256, Fits;
    var n := |v.data|;
    CapsFit(n);
    SignedRoundTrip(n, 4);
    var s := Payload(v) + rest;
    assert s[..4] == ToLe(n, 4);
    assert s[4..4 + n] == v.data && s[4 + n..] == rest;
  }

  lemma PayloadDecodes(t: VkType, v: Value, rest: seq<byte>, r: nat, c: nat)
    requires HasType(v, t) && v != Null
    ensures DecodePayload(t, Payload(v) + rest, r, c) == Ok(Normal(v), rest)
  {
    hide DecodeFloat, DecodeString, DecodeBlob;
    match v
    case Fixed(raw) =>
      var s := Payload(v) + rest;
      assert s[..|raw|] == raw && s[|raw|..] == rest;
    case Stamp(_, _, _, _) => StampDecodes(v, rest, r, c);
    case Float(_, _, _) => FloatDecodes(v, rest, r, c);
    case Str(_) => StringDecodes(v, rest, r, c);
    case Blob(_) => BlobDecodes(v, rest, r, c);
  }

  lemma StampIsPayload(s: seq<byte>, r: nat, c: nat)
    requires DecodePayload(VK_TIMESTAMP, s, r, c).Ok?
    ensures var p := DecodePayload(VK_TIMESTAMP, s, r, c);
            HasType(p.value, VK_TIMESTAMP) && s == Payload(p.value) + p.rest
  {
    hide FromLe, ToLe, FromSignedLe, Pow256;
    SignedRoundTripBack(s[..2]);
    ToLeFromLe(s[4..8]);
    assert s == s[..2] + [s[2], s[3]] + s[4..8] + s[8..];
  }

  lemma FloatIsPayload(s: seq<byte>, r: nat, c: nat)
    requires DecodeFloat(s, r, c).Ok?
    ensures var p := DecodeFloat(s, r, c);
            p.value.Float? && HasType(p.value, VK_FLOAT) && s == Payload(p.value) + p.rest
  {
    hide FromLe, ToLe, FromSignedLe, Pow256, Fits;
    SignedRoundTripBack(s[..4]);
    SignedRoundTripBack(s[5..9]);
    var n := FromSignedLe(s[5..9]);
    assert s == s[..4] + [s[4]] + s[5..9] + s[9..9 + n] + s[9 + n..];
  }

  lemma StringIsPayload(s: seq<byte>, r: nat, c: nat)
    requires DecodeString(s, r, c).Ok?
    ensures var p := DecodeString(s, r, c);
            p.value.Str? && HasType(p.value, VK_STRING) && s == Payload(p.value) + p.rest
  {
    hide FromLe, ToLe, FromSignedLe, Pow256, Fits;
    SignedRoundTripBack(s[..4]);
    var n := -2 * FromSignedLe(s[..4]);
    assert s == s[..4] + s[4..4 + n] + s[4 + n..];
  }

  lemma BlobIsPayload(s: seq<byte>, r: nat, c: nat) returns (v: Value)
    requires DecodeBlob(s, r, c).Ok?
    ensures v.Blob? && HasType(v, VK_BLOB)
    ensures var p := DecodeBlob(s, r, c); Normal(v) == p.value && s == Payload(v) + p.rest
  {
    hide FromLe, ToLe, FromSignedLe, Pow256, Fits;
    SignedRoundTripBack(s[..4]);
    var n := FromSignedLe(s[..4]);
    v := Blob(s[4..4 + n]);
    assert s == s[..4] + s[4..4 + n] + s[4 + n..];
  }

  /** A decoded payload was the payload of some well-typed value. */
  lemma PayloadIsPayload(t: VkType, s: seq<byte>, r: nat, c: nat) returns (v: Value)
    requires DecodePayload(t, s, r, c).Ok?
    ensures HasType(v, t) && v != Null
    ensures var p := DecodePayload(t, s, r, c); Normal(v) == p.value && s == Payload(v) + p.rest
  {
    hide DecodeFloat, DecodeString, DecodeBlob;
    v := DecodePayload(t, s, r, c).value;
    match t
    case VK_BOOLEAN | VK_BYTE | VK_WORD | VK_LONG | VK_LONG8 | VK_REAL | VK_DURATION =>
    case VK_TIMESTAMP => StampIsPayload(s, r, c);
    case VK_FLOAT => FloatIsPayload(s, r, c);
    case VK_STRING => StringIsPayload(s, r, c);
    case VK_BLOB | VK_IMAGE => v := BlobIsPayload(s, r, c);
  }

  lemma CellDecodes(t: VkType, v: Value, rest: seq<byte>, r: nat, c: nat)
    requires HasType(v, t)
    ensures DecodeCell(t, EncodeCell(v) + rest, r, c) == Ok(Normal(v), rest)
  {
    hide DecodePayload, Payload, HasType, ServerCode;
    var s := EncodeCell(v) + rest;
    if v == Null {
      assert s[1..] == rest;
    } else {
      assert s[1..] == Payload(v) + rest;
      PayloadDecodes(t, v, rest, r, c);
    }
  }

  lemma CellIsCell(t: VkType, s: seq<byte>, r: nat, c: nat) returns (v: Value)
    requires DecodeCell(t, s, r, c).Ok?
    ensures HasType(v, t)
    ensures var p := DecodeCell(t, s, r, c); Normal(v) == p.value && s == EncodeCell(v) + p.rest
  {
    hide DecodePayload, Payload, ServerCode;
    assert s == [s[0]] + s[1..];
    v := Null;
    if s[0] != STATUS_NULL {
      v := PayloadIsPayload(t, s[1..], r, c);
    }
  }

  lemma {:induction false} CellsDecode(types: seq<VkType>, c: nat, vs: seq<Value>, rest: seq<byte>, r: nat)
    requires c <= |types| && RowHasTypes(vs, types[c..])
    ensures DecodeCells(types, c, EncodeCells(vs) + rest, r) == Ok(NormalCells(vs), rest)
    decreases |vs|
  {
    hide DecodeCell, EncodeCell, HasType, Normal;
    if vs == [] {
      assert EncodeCells(vs) + rest == rest;
    } else {
      assert HasType(vs[0], types[c]);
      var tail := EncodeCells(vs[1..]) + rest;
      assert EncodeCells(vs) + rest == EncodeCell(vs[0]) + tail;
      CellDecodes(types[c], vs[0], tail, r, c);
      CellsDecode(types, c + 1, vs[1..], rest, r);
    }
  }

  lemma {:induction false} CellsAreCells(types: seq<VkType>, c: nat, s: seq<byte>, r: nat) returns (vs: seq<Value>)
    requires c <= |types| && DecodeCells(types, c, s, r).Ok?
    ensures RowHasTypes(vs, types[c..])
    ensures var p := DecodeCells(types, c, s, r); NormalCells(vs) == p.value && s == EncodeCells(vs) + p.rest
    decreases |types| - c
  {
    hide DecodeCell, EncodeCell, HasType, Normal;
    vs := [];
    if c < |types| {
      var v := CellIsCell(types[c], s, r, c);
      var ws := CellsAreCells(types, c + 1, DecodeCell(types[c], s, r, c).rest, r);
      vs := [v] + ws;
      assert vs[1..] == ws;
      assert EncodeCells(vs) == EncodeCell(v) + EncodeCells(ws);
    }
  }

  lemma PrefixDecodes(p: RowPrefix, updateable: bool, rest: seq<byte>, r: nat)
    requires PrefixOk(p, updateable)
    ensures DecodePrefix(updateable, EncodePrefix(p) + rest, r) == Ok(p, rest)
  {
    hide ServerCode;
    var s := EncodePrefix(p) + rest;
    match p
    case Absent => assert s == rest;
    case NoId => assert s[1..] == rest;
    case WithId(id) => assert s[1..5] == id && s[5..] == rest;
  }

  lemma PrefixIsPrefix(updateable: bool, s: seq<byte>, r: nat)
    requires DecodePrefix(updateable, s, r).Ok?
    ensures var p := DecodePrefix(updateable, s, r);
            PrefixOk(p.value, updateable) && s == EncodePrefix(p.value) + p.rest
  {
    hide ServerCode;
    if updateable {
      assert s == [s[0]] + s[1..];
      if s[0] == STATUS_VALUE {
        assert s[1..] == s[1..5] + s[5..];
      }
    }
  }

  lemma {:induction false} RowsDecode(types: seq<VkType>, updateable: bool, r: nat, rows: seq<Row>, rest: seq<byte>)
    requires RowsOk(rows, types, updateable)
    ensures DecodeRows(types, updateable, r, r + |rows|, EncodeRows(rows) + rest) == Ok(Cells(rows), rest)
    decreases |rows|
  {
    hide DecodePrefix, EncodePrefix, DecodeCells, EncodeCells, RowHasTypes, PrefixOk, NormalCells;
    var s := EncodeRows(rows) + rest;
    if rows == [] {
      assert s == rest;
    } else {
      var row := rows[0];
      assert RowOk(row, types, updateable);
      var tail := EncodeRows(rows[1..]) + rest;
      assert s == EncodePrefix(row.prefix) + (EncodeCells(row.cells) + tail);
      PrefixDecodes(row.prefix, updateable, EncodeCells(row.cells) + tail, r);
      assert types[0..] == types;
      CellsDecode(types, 0, row.cells, tail, r);
      RowsDecode(types, updateable, r + 1, rows[1..], rest);
    }
  }

  lemma {:induction false} RowsAreRows(types: seq<VkType>, updateable: bool, r: nat, n: nat, s: seq<byte>)
    returns (rows: seq<Row>)
    requires r <= n && DecodeRows(types, updateable, r, n, s).Ok?
    ensures |rows| == n - r && RowsOk(rows, types, updateable)
    ensures var p := DecodeRows(types, updateable, r, n, s); Cells(rows) == p.value && s == EncodeRows(rows) + p.rest
    decreases n - r
  {
    hide DecodePrefix, EncodePrefix, DecodeCells, EncodeCells, RowHasTypes, PrefixOk, NormalCells;
    rows := [];
    if r < n {
      PrefixIsPrefix(updateable, s, r);
      var p := DecodePrefix(updateable, s, r);
      var vs := CellsAreCells(types, 0, p.rest, r);
      assert types[0..] == types;
      var q := DecodeCells(types, 0, p.rest, r);
      var more := RowsAreRows(types, updateable, r + 1, n, q.rest);
      rows := [Row(p.value, vs)] + more;
      assert rows[1..] == more;
      assert EncodeRows(rows) == EncodePrefix(p.value) + EncodeCells(vs) + EncodeRows(more);
    }
  }

  /** rows is a table of n well-typed rows whose encoding starts s and whose normalised
      cells are `cells`. */
  ghost predicate Encodes(rows: seq<Row>, types: seq<VkType>, updateable: bool, n: nat,
                          s: seq<byte>, cells: seq<Value>, rest: seq<byte>)
  {
    && |rows| == n && RowsOk(rows, types, updateable)
    && s == EncodeRows(rows) + rest
    && cells == Cells(rows)
  }

  /** The decoder succeeds on exactly the encodings of n well-typed rows, delivering their
      normalised cells and leaving exactly the bytes after them. */
  lemma DecodeBodyIff(types: seq<VkType>, updateable: bool, n: nat, s: seq<byte>, cells: seq<Value>, rest: seq<byte>)
    requires |types| > 0
    ensures DecodeBody(types, updateable, n, s) == Ok(cells, rest)
       <==> exists rows :: Encodes(rows, types, updateable, n, s, cells, rest)
  {
    hide DecodeRows, RowsOk;
    if DecodeBody(types, updateable, n, s) == Ok(cells, rest) {
      if n == 0 {
        assert RowsOk([], types, updateable) by { RowsOkNil(types, updateable); }
        assert s == EncodeRows([]) + rest;
        assert Encodes([], types, updateable, n, s, cells, rest);
      } else {
        var rows := RowsAreRows(types, updateable, 0, n, s);
        assert Encodes(rows, types, updateable, n, s, cells, rest);
      }
    }
    forall rows | Encodes(rows, types, updateable, n, s, cells, rest)
      ensures DecodeBody(types, updateable, n, s) == Ok(cells, rest)
    {
      RowsDecode(types, updateable, 0, rows, rest);
      if n == 0 {
        assert s == rest;
      }
    }
  }

  lemma RowsOkNil(types: seq<VkType>, updateable: bool)
    ensures RowsOk([], types, updateable)
  {
  }

  // ---------- Soundness on arbitrary bytes ----------

  /** Cell c of row r sits at index r * width + c of the element table. */
  lemma {:induction false} CellAt(rows: seq<Row>, types: seq<VkType>, updateable: bool, r: nat, c: nat)
    requires RowsOk(rows, types, updateable) && r < |rows| && c < |types|
    ensures r * |types| + c < |Cells(rows)|
    ensures Cells(rows)[r * |types| + c] == Normal(rows[r].cells[c])
  {
    hide HasType, Normal, PrefixOk, NormalCells;
    assert RowOk(rows[0], types, updateable) && RowOk(rows[r], types, updateable);
    var head, tail := NormalCells(rows[0].cells), Cells(rows[1..]);
    assert Cells(rows) == head + tail;
    hide Cells;
    if r > 0 {
      CellAt(rows[1..], types, updateable, r - 1, c);
      NextIndex(r, |types|, c);
    } else {
      assert (head + tail)[c] == head[c];
    }
  }

  lemma NextIndex(r: nat, w: nat, c: nat)
    requires r > 0
    ensures (r - 1) * w + c >= 0 && r * w + c == w + ((r - 1) * w + c)
  {
  }

  lemma {:induction false} CellsLength(rows: seq<Row>, types: seq<VkType>, updateable: bool)
    requires RowsOk(rows, types, updateable)
    ensures |Cells(rows)| == |rows| * |types|
  {
    hide HasType, Normal, PrefixOk;
    if rows != [] {
      assert RowOk(rows[0], types, updateable);
      CellsLength(rows[1..], types, updateable);
      assert |rows| * |types| == |rows[1..]| * |types| + |types|;
    }
  }

  lemma RowOfIndex(i: nat, w: nat, n: nat)
    requires w > 0 && i < n * w
    ensures i / w < n && i == (i / w) * w + i % w
  {
  }

  /** Whatever bytes arrive: either the whole table is filled, every cell null or of its
      column's type within the caps, or the code left behind is not zero. */
  lemma DecodeBodySound(types: seq<VkType>, updateable: bool, n: nat, s: seq<byte>)
    requires |types| > 0
    ensures match DecodeBody(types, updateable, n, s)
            case Fail(Lost) => true
            case Fail(Malformed(what, row, col, code)) =>
              && row < n && col < |types| && code != 0
              && (what == ServerRowError || what == ServerColumnError || code == -1)
            case Ok(cells, rest) =>
              && |cells| == n * |types| && |rest| <= |s| && rest == s[|s| - |rest|..]
              && forall i :: 0 <= i < |cells| ==> HasType(cells[i], types[i % |types|])
  {
    hide HasType, DecodeRows, EncodeRows, Cells;
    RowsFault(types, updateable, 0, n, s);
    if n > 0 && DecodeBody(types, updateable, n, s).Ok? {
      var rows := RowsAreRows(types, updateable, 0, n, s);
      CellsLength(rows, types, updateable);
      forall i | 0 <= i < |Cells(rows)|
        ensures HasType(Cells(rows)[i], types[i % |types|])
      {
        RowOfIndex(i, |types|, n);
        CellTyped(rows, types, updateable, i / |types|, i % |types|);
      }
    }
  }

  lemma CellTyped(rows: seq<Row>, types: seq<VkType>, updateable: bool, r: nat, c: nat)
    requires RowsOk(rows, types, updateable) && r < |rows| && c < |types|
    ensures r * |types| + c < |Cells(rows)|
    ensures HasType(Cells(rows)[r * |types| + c], types[c])
  {
    CellAt(rows, types, updateable, r, c);
    assert RowOk(rows[r], types, updateable);
    assert HasType(rows[r].cells[c], types[c]);
  }

  /** Only the server can choose a code, and never zero. */
  predicate CodeOk(e: ReadError) {
    e.Malformed? ==> e.code != 0 && (e.what == ServerRowError || e.what == ServerColumnError || e.code == -1)
  }

  predicate FaultAt(p: Parsed<Value>, r: nat, c: nat) {
    p.Fail? && p.error.Malformed? ==> p.error.row == r && p.error.col == c && CodeOk(p.error)
  }

  predicate FaultIn(p: Parsed<seq<Value>>, r: nat, n: nat, w: nat) {
    p.Fail? && p.error.Malformed? ==> r <= p.error.row < n && p.error.col < w && CodeOk(p.error)
  }

  lemma CellFault(t: VkType, s: seq<byte>, r: nat, c: nat)
    ensures FaultAt(DecodeCell(t, s, r, c), r, c)
  {
    hide FromLe, ServerCode;
  }

  lemma {:induction false} CellsFault(types: seq<VkType>, c: nat, s: seq<byte>, r: nat)
    requires c <= |types|
    ensures FaultIn(DecodeCells(types, c, s, r), r, r + 1, |types|)
    decreases |types| - c
  {
    hide DecodeCell;
    if c < |types| {
      CellFault(types[c], s, r, c);
      if DecodeCell(types[c], s, r, c).Ok? {
        CellsFault(types, c + 1, DecodeCell(types[c], s, r, c).rest, r);
      }
    }
  }

  lemma {:induction false} RowsFault(types: seq<VkType>, updateable: bool, r: nat, n: nat, s: seq<byte>)
    requires |types| > 0 && r <= n
    ensures FaultIn(DecodeRows(types, updateable, r, n, s), r, n, |types|)
    decreases n - r
  {
    hide DecodeCells, ServerCode;
    if r < n && DecodePrefix(updateable, s, r).Ok? {
      var s1 := DecodePrefix(updateable, s, r).rest;
      CellsFault(types, 0, s1, r);
      if DecodeCells(types, 0, s1, r).Ok? {
        RowsFault(types, updateable, r + 1, n, DecodeCells(types, 0, s1, r).rest);
      }
    }
  }
}
