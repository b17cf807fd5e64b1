/** The opaque paging cursor: base64url of a timestamp, a comma and an id. */
module Cursor {
  import opened Digits
  import opened Formats
  import opened Keyset
  import opened Plain
  import opened Pow
  import opened Results

  function Bytes(s: string): (b: seq<Byte>)
    requires IsPlain(s)
  {
    seq(|s|, i requires 0 <= i < |s| => s[i] as int)
  }

  function CursorPlain(t: Instant, id: Uuid): (s: string)
    ensures IsPlain(s)
  {
    TimestampIsPlain(t); UuidIsPlain(id);
    TimestampText(t) + "," + UuidText(id)
  }

  function EncodeCursor(t: Instant, id: Uuid): string { Base64Text(Bytes(CursorPlain(t, id))) }

  lemma BytesInjective(s: string, u: string)
    requires IsPlain(s) && IsPlain(u) && Bytes(s) == Bytes(u)
    ensures s == u
  {
    forall i | 0 <= i < |s| ensures |s| == |u| && s[i] == u[i] {
      assert Bytes(s)[i] == Bytes(u)[i];
    }
  }

  /** The characters of a cursor's text: the time, the only comma, and the 36 characters of the id. */
  lemma CursorReads(t: Instant, id: Uuid)
    ensures var s := TimestampText(t) + "," + UuidText(id);
      && IsPlain(s) && EncodeCursor(t, id) == Base64Text(Bytes(s))
      && (forall i :: 0 <= i < |s| ==> Bytes(s)[i] == s[i] as int && (s[i] == ',' <==> i == |s| - 37))
  {
    hide Base64Text, YearText, HexText;
    TimestampIsPlain(t);
    UuidIsPlain(id);
    UuidTextGroups(id);
    NoCommas(t, id);
  }

  lemma NoCommas(t: Instant, id: Uuid)
    ensures ',' !in TimestampText(t) && ',' !in UuidText(id)
  {
    hide HexText, Padded, NatText;
    HexHasNoComma(id);
    assert ',' !in YearText(t.year) && ',' !in ClockText(t);
  }

  lemma HexHasNoComma(b: seq<Byte>)
    ensures ',' !in HexText(b)
  {
    HexIsAlphabet();
    assert forall d: nat :: d < 16 ==> Json.HEX[d] != ',';
  }

  /** A cursor determines the id and, to the microsecond, the time it was made from; and it is never empty. */
  lemma CursorDetermines(t: Instant, a: Uuid, u: Instant, b: Uuid)
    ensures EncodeCursor(t, a) == EncodeCursor(u, b) <==> ToMicroseconds(t) == ToMicroseconds(u) && a == b
    ensures EncodeCursor(t, a) != ""
  {
    hide TimestampText, UuidText, Base64Text, Bytes;
    var x, y := CursorPlain(t, a), CursorPlain(u, b);
    UuidTextGroups(a);
    UuidTextGroups(b);
    TimestampTextInjective(t, u);
    if EncodeCursor(t, a) == EncodeCursor(u, b) {
      Base64TextInjective(Bytes(x), Bytes(y));
      BytesInjective(x, y);
      assert UuidText(a) == x[|x| - 36..] && UuidText(b) == y[|y| - 36..];
      assert TimestampText(t) == x[..|x| - 37] && TimestampText(u) == y[..|y| - 37];
      UuidTextInjective(a, b);
    }
    NotEmpty(x);
  }

  lemma NotEmpty(s: string)
    requires s != "" && IsPlain(s)
    ensures Base64Text(Bytes(s)) != ""
  {
    hide BASE64URL;
    SextetsLength(Bytes(s));
    Base64urlIsAlphabet();
  }

  // ---- the codec of a listing ---------------------------------------------------------

  /**
   * The time whose calendar fields, read in order as one number, are `at`: a later time has the
   * greater number.
   */
  function Calendar(at: int): (t: Instant)
    ensures ToMicroseconds(t) == t
  {
    var second := at / 1_000_000;
    var minute := second / 100;
    var hour := minute / 100;
    var day := hour / 100;
    var month := day / 100;
    Utc(month / 100, month % 100, day % 100, hour % 100, minute % 100, second % 100, at % 1_000_000 * 1000)
  }

  /** Earlier in the calendar: the first field that differs decides. */
  ghost predicate Earlier(t: Instant, u: Instant) {
    t.year < u.year || (t.year == u.year
    && (t.month < u.month || (t.month == u.month
    && (t.day < u.day || (t.day == u.day
    && (t.hour < u.hour || (t.hour == u.hour
    && (t.minute < u.minute || (t.minute == u.minute
    && (t.second < u.second || (t.second == u.second
    && t.nano < u.nano)))))))))))
  }

  lemma HundredsInOrder(a: int, b: int)
    requires a <= b
    ensures a / 100 < b / 100 || (a / 100 == b / 100 && a % 100 <= b % 100)
    ensures a / 100 == b / 100 && a % 100 == b % 100 ==> a == b
  {
  }

  lemma MillionsInOrder(a: int, b: int)
    requires a < b
    ensures a / 1_000_000 < b / 1_000_000 || (a / 1_000_000 == b / 1_000_000 && a % 1_000_000 < b % 1_000_000)
  {
  }

  /** A smaller number is an earlier time. */
  lemma CalendarAscends(a: int, b: int)
    requires a < b
    ensures Earlier(Calendar(a), Calendar(b))
  {
    var s, t := a / 1_000_000, b / 1_000_000;
    MillionsInOrder(a, b);
    HundredsInOrder(s, t);
    HundredsInOrder(s / 100, t / 100);
    HundredsInOrder(s / 100 / 100, t / 100 / 100);
    HundredsInOrder(s / 100 / 100 / 100, t / 100 / 100 / 100);
    HundredsInOrder(s / 100 / 100 / 100 / 100, t / 100 / 100 / 100 / 100);
  }

  lemma SameParts(a: int, b: int, n: nat)
    requires n > 0 && a / n == b / n && a % n == b % n
    ensures a == b
  {
  }

  lemma CalendarInjective(a: int, b: int)
    requires Calendar(a) == Calendar(b)
    ensures a == b
  {
    var s, t := a / 1_000_000, b / 1_000_000;
    SameParts(s / 100 / 100 / 100 / 100, t / 100 / 100 / 100 / 100, 100);
    SameParts(s / 100 / 100 / 100, t / 100 / 100 / 100, 100);
    SameParts(s / 100 / 100, t / 100 / 100, 100);
    SameParts(s / 100, t / 100, 100);
    SameParts(s, t, 100);
    SameParts(a, b, 1_000_000);
  }

  function IdBytes(id: RowId): Uuid { NonceBytes(id, 16) }

  lemma IdBytesInjective(a: RowId, b: RowId)
    requires IdBytes(a) == IdBytes(b)
    ensures a == b
  {
    IdSpace();
    NonceBytesValue(a, 16);
    NonceBytesValue(b, 16);
  }

  lemma IdSpace()
    ensures Power(256, 16) == ID_SPACE
  {
    assert Power(256, 4) == 0x1_0000_0000;
    PowerSum(256, 4, 4);
    PowerSum(256, 8, 8);
  }

  function EncodeKey(k: Key): string { EncodeCursor(Calendar(k.at), IdBytes(k.id)) }

  /** The key a cursor was made from, if it was made from one. */
  ghost function DecodeKey(cursor: string): Option<Key> {
    if exists k :: EncodeKey(k) == cursor then (var k :| EncodeKey(k) == cursor; Some(k)) else None
  }

  ghost function CursorCodec(): Codec { Codec(k => EncodeKey(k), cursor => DecodeKey(cursor)) }

  lemma EncodeKeyInjective(j: Key, k: Key)
    requires EncodeKey(j) == EncodeKey(k)
    ensures j == k && EncodeKey(k) != ""
  {
    CursorDetermines(Calendar(j.at), IdBytes(j.id), Calendar(k.at), IdBytes(k.id));
    hide EncodeCursor, Calendar, IdBytes;
    CalendarInjective(j.at, k.at);
    IdBytesInjective(j.id, k.id);
  }

  /** The modelled cursor text is such a codec, so everything proved of listings holds with it. */
  lemma CursorCodecRoundTrips()
    ensures RoundTrips(CursorCodec())
  {
    hide EncodeKey;
    forall k: Key ensures EncodeKey(k) != "" && DecodeKey(EncodeKey(k)) == Some(k) {
      EncodeKeyInjective(k, k);
      forall j | EncodeKey(j) == EncodeKey(k) ensures j == k { EncodeKeyInjective(j, k); }
    }
  }
}
