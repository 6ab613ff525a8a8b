/** Memos: the encoder in `sendWithDetails`, the decoder `XrpMemo.from`, and `XrpMemo.fromMemoFields`. */
module Memos {
  import opened Wrappers
  import opened Proto
  import HexCodec

  datatype XrpMemo = XrpMemo(data: Bytes, format: Bytes, kind: Bytes)

  datatype MemoField = MemoField(value: HexCodec.Text, isHex: bool)

  /** A field is set on the wire only when it has bytes. */
  function SetIfAny(bytes: Bytes): Option<Bytes> { if |bytes| > 0 then Some(bytes) else None }

  function Encode(memo: XrpMemo): Memo {
    Memo(SetIfAny(memo.data), SetIfAny(memo.format), SetIfAny(memo.kind))
  }

  function EncodeAll(memos: seq<XrpMemo>): (r: seq<Memo>)
    ensures |r| == |memos|
  {
    seq(|memos|, i requires 0 <= i < |memos| => Encode(memos[i]))
  }

  /** What `sendWithDetails` puts on the transaction: nothing for an absent or empty list. */
  function WireMemos(memosList: Option<seq<XrpMemo>>): seq<Memo> {
    if memosList.Some? && |memosList.value| > 0 then EncodeAll(memosList.value) else []
  }

  /** An unset protobuf field reads as no bytes. */
  function From(memo: Memo): XrpMemo {
    XrpMemo(memo.data.GetOr([]), memo.format.GetOr([]), memo.kind.GetOr([]))
  }

  function FromAll(memos: seq<Memo>): (r: seq<XrpMemo>)
    ensures |r| == |memos|
  {
    seq(|memos|, i requires 0 <= i < |memos| => From(memos[i]))
  }

  predicate IsReadable(field: Option<MemoField>) {
    field.Some? && field.value.isHex ==> HexCodec.IsAscii(field.value.value)
  }

  /** The bytes of an optional field; `None` when the hex text has an odd number of digits. */
  function FieldBytes(field: Option<MemoField>): Option<Bytes>
    requires IsReadable(field)
  {
    match field
    case None => Some([])
    case Some(f) => HexCodec.ByteArrayOf(f.value, f.isHex)
  }

  function FromMemoFields(data: Option<MemoField>, format: Option<MemoField>, kind: Option<MemoField>): Option<XrpMemo>
    requires IsReadable(data) && IsReadable(format) && IsReadable(kind)
  {
    match (FieldBytes(data), FieldBytes(format), FieldBytes(kind))
    case (Some(d), Some(f), Some(k)) => Some(XrpMemo(d, f, k))
    case _ => None
  }

  /** A wire field holds the bytes of a memo's field, and is unset for no bytes. */
  predicate Carries(field: Option<Bytes>, bytes: Bytes) { field == if bytes == [] then None else Some(bytes) }

  /** Every memo list comes back from the wire unchanged and in order, empty fields included, each in its own field. */
  lemma WireRoundTrip(memosList: Option<seq<XrpMemo>>)
    ensures FromAll(WireMemos(memosList)) == memosList.GetOr([])
    ensures forall i | 0 <= i < |WireMemos(memosList)| ::
      var wire, memo := WireMemos(memosList)[i], memosList.GetOr([])[i];
      Carries(wire.data, memo.data) && Carries(wire.format, memo.format) && Carries(wire.kind, memo.kind)
  {
    assert forall memo: XrpMemo :: From(Encode(memo)) == memo;
  }

  /** A wire memo is re-encoded as it was exactly when no field is set to no bytes. */
  lemma ReEncodedExactly(memo: Memo)
    ensures Encode(From(memo)) == memo <==> memo.data != Some([]) && memo.format != Some([]) && memo.kind != Some([])
  {
  }

  /**
   * Plain-text fields survive the wire: the memo read back holds the code units of the texts
   * exactly when every character of them is in 0x10..0xFF.
   */
  lemma PlainTextMemoExactly(data: HexCodec.Text, format: HexCodec.Text, kind: HexCodec.Text)
    ensures var made := FromMemoFields(
        Some(MemoField(data, false)), Some(MemoField(format, false)), Some(MemoField(kind, false)));
      (made.Some?
        && (var back := FromAll(WireMemos(Some([made.value])));
            && |back| == 1
            && HexCodec.AreCodeUnitsOf(back[0].data, data)
            && HexCodec.AreCodeUnitsOf(back[0].format, format)
            && HexCodec.AreCodeUnitsOf(back[0].kind, kind)))
      <==> HexCodec.TwoDigitUnits(data + format + kind)
  {
    var made := FromMemoFields(
      Some(MemoField(data, false)), Some(MemoField(format, false)), Some(MemoField(kind, false)));
    HexCodec.PlainStringExactly(data);
    HexCodec.PlainStringExactly(format);
    HexCodec.PlainStringExactly(kind);
    assert HexCodec.TwoDigitUnits(data + format + kind) <==>
      HexCodec.TwoDigitUnits(data) && HexCodec.TwoDigitUnits(format) && HexCodec.TwoDigitUnits(kind) by {
      Units3(data, format, kind);
    }
    if made.Some? {
      WireRoundTrip(Some([made.value]));
    }
  }

  lemma Units3(a: HexCodec.Text, b: HexCodec.Text, c: HexCodec.Text)
    ensures HexCodec.TwoDigitUnits(a + b + c) <==>
      HexCodec.TwoDigitUnits(a) && HexCodec.TwoDigitUnits(b) && HexCodec.TwoDigitUnits(c)
  {
    var s := a + b + c;
    assert forall i | 0 <= i < |a| :: s[i] == a[i];
    assert forall i | 0 <= i < |b| :: s[|a| + i] == b[i];
    assert forall i | 0 <= i < |c| :: s[|a| + |b| + i] == c[i];
  }

  /** The bytes a field asks for: none when absent, its hex digits' bytes, or its code units when they are all in 0x10..0xFF. */
  predicate HasBytesOf(field: Option<MemoField>, bytes: Bytes) {
    && (field.None? ==> bytes == [])
    && (field.Some? && field.value.isHex && HexCodec.IsHex(field.value.value) ==>
          HexCodec.Encoded(bytes) == HexCodec.Lower(field.value.value))
    && (field.Some? && !field.value.isHex && HexCodec.TwoDigitUnits(field.value.value) ==>
          HexCodec.AreCodeUnitsOf(bytes, field.value.value))
  }

  /** The hex text behind a field: the field's own, or that of its code units. */
  function HexBehind(field: MemoField): HexCodec.Text {
    if field.isHex then field.value else HexCodec.HexOf(field.value)
  }

  /**
   * Every mix of absent, plain and hex fields: there is a memo exactly when no field has an odd
   * number of hex digits, and it has the bytes of each field in its place.
   */
  lemma FromMemoFieldsExactly(data: Option<MemoField>, format: Option<MemoField>, kind: Option<MemoField>)
    requires IsReadable(data) && IsReadable(format) && IsReadable(kind)
    ensures var made := FromMemoFields(data, format, kind);
      && (made.Some? <==> HasEvenHex(data) && HasEvenHex(format) && HasEvenHex(kind))
      && (made.Some? ==>
            && HasBytesOf(data, made.value.data)
            && HasBytesOf(format, made.value.format)
            && HasBytesOf(kind, made.value.kind))
  {
    hide HasEvenHex, HasBytesOf, FieldBytes;
    FieldBytesExactly(data);
    FieldBytesExactly(format);
    FieldBytesExactly(kind);
  }

  predicate HasEvenHex(field: Option<MemoField>) { field.Some? ==> |HexBehind(field.value)| % 2 == 0 }

  lemma FieldBytesExactly(field: Option<MemoField>)
    requires IsReadable(field)
    ensures FieldBytes(field).Some? <==> HasEvenHex(field)
    ensures FieldBytes(field).Some? ==> HasBytesOf(field, FieldBytes(field).value)
  {
    if field.Some? {
      if field.value.isHex {
        HexCodec.HexStringExactly(field.value.value);
      } else {
        HexCodec.PlainStringExactly(field.value.value);
      }
    }
  }
}
