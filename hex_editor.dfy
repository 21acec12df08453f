/**
 * The hex editor's keyboard and clipboard logic: the cursor reducer behind
 * `key_down`, the bytes `paste` decodes from clipboard text, the text `copy`
 * produces, the windows-1252 table both use for the character column, and
 * the number of address digits a row prints.
 *
 * Every edit the editor emits is a one-element replacement list handed to
 * `apply_replacements_to_blob`, so its effect on the blob is `Patch`.
 */
/** Conversion between a byte and its value, kept apart so its proof sees nothing else. */
module ByteValues {
  /** Converting a value below 256 to a byte and back loses nothing. */
  lemma IntByte(n: int)
    requires 0 <= n < 256
    ensures (n as bv8) as int == n
  {
    assert n % 256 == n;
  }
}

module HexEditor {
  import opened Wrappers
  import opened Archive
  import opened ByteValues
  import R = HexReplacement

  /** Which column the cursor is in: none, the high or low hex digit, or the character column. */
  datatype CursorState = NoSelect | Upper | Lower | Char

  /** `CursorPoint`: the byte under the cursor, its column, and the selection anchor. */
  datatype Cursor = Cursor(byte: int, state: CursorState, selectFrom: Option<int>)

  /** `blank_cursor`, the state before the first click. */
  const BlankCursor: Cursor := Cursor(-1, NoSelect, None)

  /** The `KeyboardEvent.code` values the handler distinguishes. */
  datatype Code = Tab | Enter | Delete | ArrowDown | ArrowUp | ArrowRight | ArrowLeft | PageDown | PageUp | OtherCode

  /** A key press: physical code, produced text (`key`) and modifiers. */
  datatype Key = Key(code: Code, text: string, shift: bool, ctrl: bool, alt: bool)

  // ---------------------------------------------------------------------
  // Characters: the windows-1252 table and hex digits

  /** What windows-1252 decodes bytes 0x80..0x9F to; every other byte decodes to the code point of the same number. */
  const HighChars: seq<char> := [
    '\U{20AC}', '\U{81}', '\U{201A}', '\U{192}', '\U{201E}', '\U{2026}', '\U{2020}', '\U{2021}',
    '\U{2C6}', '\U{2030}', '\U{160}', '\U{2039}', '\U{152}', '\U{8D}', '\U{17D}', '\U{8F}',
    '\U{90}', '\U{2018}', '\U{2019}', '\U{201C}', '\U{201D}', '\U{2022}', '\U{2013}', '\U{2014}',
    '\U{2DC}', '\U{2122}', '\U{161}', '\U{203A}', '\U{153}', '\U{9D}', '\U{17E}', '\U{178}']

  /** The code point windows-1252 decodes byte value `n` to. */
  function TrueCode(n: int): char
    requires 0 <= n < 256
  {
    if 0x80 <= n < 0xA0 then HighChars[n - 0x80] else n as char
  }

  /** The byte value that decodes to `c`, if any. */
  function InvCode(c: char): (r: Option<int>)
    ensures r.Some? ==> 0 <= r.value < 256 && TrueCode(r.value) == c
  {
    if c as int < 0x80 || 0xA0 <= c as int < 0x100 then Some(c as int)
    else if InvHighA(c).Some? then InvHighA(c)
    else InvHighB(c)
  }

  /** The characters bytes 0x80..0x8F decode to. */
  function InvHighA(c: char): (r: Option<int>)
    ensures r.Some? ==> 0x80 <= r.value < 0x90 && TrueCode(r.value) == c
  {
    match c
    case '\U{20AC}' => Some(0x80)  case '\U{81}' => Some(0x81)  case '\U{201A}' => Some(0x82)
    case '\U{192}' => Some(0x83)   case '\U{201E}' => Some(0x84) case '\U{2026}' => Some(0x85)
    case '\U{2020}' => Some(0x86)  case '\U{2021}' => Some(0x87) case '\U{2C6}' => Some(0x88)
    case '\U{2030}' => Some(0x89)  case '\U{160}' => Some(0x8A)  case '\U{2039}' => Some(0x8B)
    case '\U{152}' => Some(0x8C)   case '\U{8D}' => Some(0x8D)   case '\U{17D}' => Some(0x8E)
    case '\U{8F}' => Some(0x8F)
    case _ => None
  }

  /** The characters bytes 0x90..0x9F decode to. */
  function InvHighB(c: char): (r: Option<int>)
    ensures r.Some? ==> 0x90 <= r.value < 0xA0 && TrueCode(r.value) == c
  {
    match c
    case '\U{90}' => Some(0x90)   case '\U{2018}' => Some(0x91)
    case '\U{2019}' => Some(0x92)  case '\U{201C}' => Some(0x93) case '\U{201D}' => Some(0x94)
    case '\U{2022}' => Some(0x95)  case '\U{2013}' => Some(0x96) case '\U{2014}' => Some(0x97)
    case '\U{2DC}' => Some(0x98)   case '\U{2122}' => Some(0x99) case '\U{161}' => Some(0x9A)
    case '\U{203A}' => Some(0x9B)  case '\U{153}' => Some(0x9C)  case '\U{9D}' => Some(0x9D)
    case '\U{17E}' => Some(0x9E)   case '\U{178}' => Some(0x9F)
    case _ => None
  }

  /** Decoding then looking up gives back the byte value: the table is one-to-one. */
  lemma CodeRoundTrip(n: int)
    requires 0 <= n < 256
    ensures InvCode(TrueCode(n)) == Some(n)
  {
    if 0x80 <= n < 0x88 {
      RoundTrip80(n);
    } else if 0x88 <= n < 0x90 {
      RoundTrip88(n);
    } else if 0x90 <= n < 0x98 {
      RoundTrip90(n);
    } else if 0x98 <= n < 0xA0 {
      RoundTrip98(n);
    }
  }

  /** `c` is not decoded from the byte of the same number. */
  predicate HighChar(c: char) {
    !(c as int < 0x80 || 0xA0 <= c as int < 0x100)
  }

  lemma RoundTrip80(n: int)
    requires 0x80 <= n < 0x88
    ensures HighChar(TrueCode(n))
    ensures InvHighA(TrueCode(n)) == Some(n)
  {
    match n
    case 0x80 => case 0x81 => case 0x82 => case 0x83 => case 0x84 => case 0x85 => case 0x86 => case 0x87 =>
  }

  lemma RoundTrip88(n: int)
    requires 0x88 <= n < 0x90
    ensures HighChar(TrueCode(n))
    ensures InvHighA(TrueCode(n)) == Some(n)
  {
    match n
    case 0x88 => case 0x89 => case 0x8A => case 0x8B => case 0x8C => case 0x8D => case 0x8E => case 0x8F =>
  }

  lemma RoundTrip90(n: int)
    requires 0x90 <= n < 0x98
    ensures HighChar(TrueCode(n))
    ensures InvHighA(TrueCode(n)) == None && InvHighB(TrueCode(n)) == Some(n)
  {
    match n
    case 0x90 => case 0x91 => case 0x92 => case 0x93 => case 0x94 => case 0x95 => case 0x96 => case 0x97 =>
  }

  lemma RoundTrip98(n: int)
    requires 0x98 <= n < 0xA0
    ensures HighChar(TrueCode(n))
    ensures InvHighA(TrueCode(n)) == None && InvHighB(TrueCode(n)) == Some(n)
  {
    match n
    case 0x98 => case 0x99 => case 0x9A => case 0x9B => case 0x9C => case 0x9D => case 0x9E => case 0x9F =>
  }

  /** `true_char_map[b]`: the character windows-1252 decodes byte `b` to. */
  function TrueChar(b: bv8): char {
    TrueCode(b as int)
  }

  /** `inv_char_map.get(c)`: the byte that decodes to `c`, if any. */
  function InvChar(c: char): (r: Option<bv8>)
    ensures r.Some? ==> TrueChar(r.value) == c
  {
    match InvCode(c)
    case None => None
    case Some(n) => IntByte(n); Some(n as bv8)
  }

  /** The decoder is one-to-one, so the inverse map recovers every byte. */
  lemma CharRoundTrip(b: bv8)
    ensures InvChar(TrueChar(b)) == Some(b)
  {
    CodeRoundTrip(b as int);
  }

  /** Either way round: `c` is in the inverse map exactly when some byte decodes to it. */
  lemma InvCharExact(c: char, b: bv8)
    ensures InvChar(c) == Some(b) <==> TrueChar(b) == c
  {
    CharRoundTrip(b);
  }

  /** The value of a hex digit, either case (`"0123456789abcdef".indexOf(c.toLowerCase())`). */
  function HexValue(c: char): (r: Option<bv8>)
    ensures r.Some? ==> r.value < 16
    ensures r.Some? <==> ('0' <= c <= '9' || 'a' <= c <= 'f' || 'A' <= c <= 'F')
  {
    if '0' <= c <= '9' then Some((c as int - '0' as int) as bv8)
    else if 'a' <= c <= 'f' then Some((c as int - 'a' as int + 10) as bv8)
    else if 'A' <= c <= 'F' then Some((c as int - 'A' as int + 10) as bv8)
    else None
  }

  /** `hex_digits[v]`: the lower-case digit for a nibble. */
  function HexDigit(v: bv8): (c: char)
    requires v < 16
  {
    if v < 10 then ('0' as int + v as int) as char else ('a' as int + v as int - 10) as char
  }

  lemma HexDigitValue(v: bv8)
    requires v < 16
    ensures HexValue(HexDigit(v)) == Some(v)
    ensures 'A' <= HexDigit(v) <= 'F' ==> false
  {
  }

  // ---------------------------------------------------------------------
  // The key-down reducer

  /** Shift extends the selection from the old anchor (or the old byte); anything else drops it. */
  function Anchor(c: Cursor, k: Key): Option<int> {
    if k.shift then Some(c.selectFrom.GetOr(c.byte)) else None
  }

  /** `type_byte`: Enter types 0x10, Delete 0, a one-character key its windows-1252 byte. */
  function TypedByte(k: Key): Option<bv8> {
    if k.code == Enter then Some(0x10)
    else if k.code == Delete then Some(0)
    else if |k.text| == 1 then InvChar(k.text[0])
    else None
  }

  /** `type_hex`: the digit a one-character key types, when it is a hex digit. */
  function TypedHex(k: Key): Option<bv8> {
    if k.code == Enter || k.code == Delete || |k.text| != 1 then None
    else HexValue(k.text[0])
  }

  predicate Navigates(k: Key) {
    k.code in {ArrowDown, ArrowUp, ArrowRight, PageDown, PageUp, ArrowLeft}
  }

  /** What one key press yields: the next cursor and the edit it emits, if any. */
  datatype Outcome = Outcome(cursor: Cursor, edit: Option<R.Replacement>)

  /** The cursor is on a byte of the blob, and so is the anchor. */
  predicate Placed(c: Cursor, size: int) {
    c.state != NoSelect ==>
      0 <= c.byte < size && (c.selectFrom.Some? ==> 0 <= c.selectFrom.value < size)
  }

  /** Tab leaves the hex columns for the character column; Shift+Tab goes back to the high digit. */
  function Tabbed(c: Cursor, k: Key): (r: Cursor)
    requires k.code == Tab
    ensures r.byte == c.byte && r.selectFrom == c.selectFrom
  {
    if c.state == Char && k.shift then Cursor(c.byte, Upper, c.selectFrom)
    else if (c.state == Lower || c.state == Upper) && !k.shift then Cursor(c.byte, Char, c.selectFrom)
    else c
  }

  /** The `set_cursor` reducer for navigation and typing keys. */
  function Moved(c: Cursor, k: Key, size: int): (o: Outcome)
    requires size > 0
    ensures c.state == NoSelect ==> o == Outcome(c, None)
    ensures (o.cursor.state == NoSelect) == (c.state == NoSelect)
    ensures o.edit.Some? ==> o.edit.value.Single? && o.edit.value.offset == c.byte && R.NibbleFits(o.edit.value)
    ensures o.edit.Some? && Placed(c, size) ==> R.InBounds(o.edit.value, size)
    ensures Placed(c, size) ==> Placed(o.cursor, size)
  {
    if c.state == NoSelect then Outcome(c, None)
    else if k.code == ArrowDown || k.code == PageDown || k.code == ArrowUp || k.code == PageUp then
      Outcome(Vertical(c, k, size), None)
    else if k.code == ArrowLeft then Outcome(Left(c, k), None)
    else Typed(c, k, size)
  }

  /** Down, PageDown, Up and PageUp: 16 or 256 bytes on or back, stopping at either end. */
  function Vertical(c: Cursor, k: Key, size: int): (r: Cursor)
    requires size > 0 && c.state != NoSelect
    requires k.code == ArrowDown || k.code == PageDown || k.code == ArrowUp || k.code == PageUp
    ensures r.state != NoSelect
    ensures Placed(c, size) ==> Placed(r, size)
  {
    var sf := Anchor(c, k);
    if k.code == ArrowDown || k.code == PageDown then
      var nb := c.byte + (if k.code == PageDown then 256 else 16);
      if nb >= size then Cursor(size - 1, if c.state == Char then Char else Lower, sf)
      else Cursor(nb, c.state, sf)
    else
      var nb := c.byte - (if k.code == PageUp then 256 else 16);
      if nb <= 0 then Cursor(0, if c.state == Char then Char else Upper, sf)
      else Cursor(nb, c.state, sf)
  }

  /** Left: one byte back in the character column, one digit back in the hex columns. */
  function Left(c: Cursor, k: Key): (r: Cursor)
    requires c.state != NoSelect
    ensures r.state != NoSelect
    ensures forall size :: Placed(c, size) ==> Placed(r, size)
  {
    var sf := Anchor(c, k);
    if c.state == Char then Cursor(if c.byte - 1 < 0 then 0 else c.byte - 1, Char, sf)
    else if c.state == Lower then Cursor(c.byte, Upper, sf)
    else if c.byte <= 0 then c
    else Cursor(c.byte - 1, Lower, sf)
  }

  /** Right and typing: the byte or digit typed, if any, then one column on. */
  function Typed(c: Cursor, k: Key, size: int): (o: Outcome)
    requires size > 0 && c.state != NoSelect
    ensures o.cursor.state != NoSelect
    ensures o.edit.Some? ==> o.edit.value.Single? && o.edit.value.offset == c.byte && R.NibbleFits(o.edit.value)
    ensures o.edit.Some? && Placed(c, size) ==> R.InBounds(o.edit.value, size)
    ensures Placed(c, size) ==> Placed(o.cursor, size)
  {
    var sf := Anchor(c, k);
    var tb := TypedByte(k);
    var th := TypedHex(k);
    if c.state == Char then
      var edit := if tb.Some? then Some(R.Single(R.Whole, c.byte, tb.value)) else None;
      var nb := if size - 1 < c.byte + 1 then size - 1 else c.byte + 1;
      Outcome(Cursor(nb, Char, if tb.None? then sf else None), edit)
    else if k.code != ArrowRight && th.None? then Outcome(c, None)
    else if c.state == Lower then
      var edit := if th.Some? then Some(R.Single(R.Lower, c.byte, th.value)) else None;
      if c.byte >= size - 1 then Outcome(c, edit)
      else Outcome(Cursor(c.byte + 1, Upper, if th.None? then sf else None), edit)
    else
      var edit := if th.Some? then Some(R.Single(R.Upper, c.byte, th.value)) else None;
      Outcome(Cursor(c.byte, Lower, if th.None? then sf else None), edit)
  }

  /**
   * `key_down`: the cursor after one key press on a blob of `size` bytes, and
   * the single-byte edit it emits. An emitted edit lies on the cursor's byte
   * and writes at most one hex digit per nibble, and a cursor placed on the
   * blob stays on it.
   */
  function KeyDown(c: Cursor, k: Key, size: int): (o: Outcome)
    ensures size <= 0 || c.state == NoSelect ==> o == Outcome(c, None)
    ensures (o.cursor.state == NoSelect) == (c.state == NoSelect)
    ensures o.edit.Some? ==> o.edit.value.Single? && o.edit.value.offset == c.byte && R.NibbleFits(o.edit.value)
    ensures o.edit.Some? && Placed(c, size) ==> R.InBounds(o.edit.value, size)
    ensures Placed(c, size) ==> Placed(o.cursor, size)
  {
    if size <= 0 then Outcome(c, None)
    else if k.code == Tab then Outcome(Tabbed(c, k), None)
    else if k.ctrl || k.alt then Outcome(c, None)
    else if Navigates(k) || TypedByte(k).Some? then Moved(c, k, size)
    else Outcome(c, None)
  }

  /** Down and PageDown move 16 or 256 bytes on; past the end they stop on the last byte. */
  lemma MovesDown(c: Cursor, k: Key, size: int)
    requires size > 0 && c.state != NoSelect && !k.ctrl && !k.alt
    requires k.code == ArrowDown || k.code == PageDown
    ensures var step := if k.code == PageDown then 256 else 16;
            var o := KeyDown(c, k, size);
            o.edit == None && o.cursor.selectFrom == Anchor(c, k) &&
            (c.byte + step < size ==> o.cursor.byte == c.byte + step && o.cursor.state == c.state) &&
            (c.byte + step >= size ==> o.cursor.byte == size - 1 &&
                                       o.cursor.state == (if c.state == Char then Char else Lower))
  {
  }

  /** Up and PageUp move 16 or 256 bytes back; at or before the start they stop on byte 0. */
  lemma MovesUp(c: Cursor, k: Key, size: int)
    requires size > 0 && c.state != NoSelect && !k.ctrl && !k.alt
    requires k.code == ArrowUp || k.code == PageUp
    ensures var step := if k.code == PageUp then 256 else 16;
            var o := KeyDown(c, k, size);
            o.edit == None && o.cursor.selectFrom == Anchor(c, k) &&
            (c.byte - step > 0 ==> o.cursor.byte == c.byte - step && o.cursor.state == c.state) &&
            (c.byte - step <= 0 ==> o.cursor.byte == 0 &&
                                    o.cursor.state == (if c.state == Char then Char else Upper))
  {
  }

  /** Left steps one column back: character column by byte, hex columns by digit, stopping at byte 0. */
  lemma MovesLeft(c: Cursor, k: Key, size: int)
    requires size > 0 && c.state != NoSelect && !k.ctrl && !k.alt && k.code == ArrowLeft
    ensures var o := KeyDown(c, k, size);
            o.edit == None &&
            (c.state == Char ==> o.cursor == Cursor(if c.byte > 0 then c.byte - 1 else 0, Char, Anchor(c, k))) &&
            (c.state == Lower ==> o.cursor == Cursor(c.byte, Upper, Anchor(c, k))) &&
            (c.state == Upper && c.byte <= 0 ==> o.cursor == c) &&
            (c.state == Upper && c.byte > 0 ==> o.cursor == Cursor(c.byte - 1, Lower, Anchor(c, k)))
  {
  }

  /**
   * A hex digit typed in a hex column writes that nibble of the cursor's byte
   * and moves one digit on (from the low digit of the last byte it stays put);
   * the selection is dropped.
   */
  lemma TypesHexDigit(c: Cursor, k: Key, size: int, v: bv8)
    requires size > 0 && !k.ctrl && !k.alt && k.code == OtherCode
    requires v < 16 && k.text == [HexDigit(v)]
    ensures var o := KeyDown(c, k, size);
            (c.state == Upper ==> o == Outcome(Cursor(c.byte, Lower, None), Some(R.Single(R.Upper, c.byte, v)))) &&
            (c.state == Lower && c.byte < size - 1 ==>
               o == Outcome(Cursor(c.byte + 1, Upper, None), Some(R.Single(R.Lower, c.byte, v)))) &&
            (c.state == Lower && c.byte >= size - 1 ==> o == Outcome(c, Some(R.Single(R.Lower, c.byte, v))))
  {
    HexDigitValue(v);
    assert InvChar(HexDigit(v)).Some?;
    assert TypedHex(k) == Some(v);
    if c.state == Upper || c.state == Lower {
      assert KeyDown(c, k, size) == Typed(c, k, size);
    }
  }

  /**
   * In a hex column, a key that types no hex digit (Enter, Delete, a letter
   * beyond f) changes nothing; in the character column Enter writes 0x10,
   * Delete writes 0, a mapped character its byte, each followed by a step
   * right that stops at the last byte and drops the selection.
   */
  lemma TypesByte(c: Cursor, k: Key, size: int)
    requires size > 0 && c.state != NoSelect && !k.ctrl && !k.alt
    requires !Navigates(k) && k.code != Tab && TypedByte(k).Some?
    ensures var o := KeyDown(c, k, size);
            (c.state != Char && TypedHex(k).None? ==> o == Outcome(c, None)) &&
            (c.state == Char ==>
               o == Outcome(Cursor(if c.byte + 1 < size then c.byte + 1 else size - 1, Char, None),
                            Some(R.Single(R.Whole, c.byte, TypedByte(k).value))))
    ensures k.code == Enter ==> TypedByte(k) == Some(0x10) && TypedHex(k) == None
    ensures k.code == Delete ==> TypedByte(k) == Some(0) && TypedHex(k) == None
  {
  }

  /** Tab and Shift+Tab switch between the hex and character columns, keeping byte and anchor. */
  lemma TabSwitchesColumn(c: Cursor, k: Key, size: int)
    requires size > 0 && k.code == Tab
    ensures var o := KeyDown(c, k, size);
            o.edit == None && o.cursor.byte == c.byte && o.cursor.selectFrom == c.selectFrom &&
            (c.state == Char && k.shift ==> o.cursor.state == Upper) &&
            ((c.state == Upper || c.state == Lower) && !k.shift ==> o.cursor.state == Char) &&
            (c.state == NoSelect ==> o.cursor == c)
  {
  }

  /** Shift-navigation anchors the selection at the old anchor, or at the old byte when there was none. */
  lemma ShiftKeepsAnchor(c: Cursor, k: Key, size: int)
    requires size > 0 && c.state != NoSelect && !k.ctrl && !k.alt && k.shift
    requires k.code in {ArrowDown, ArrowUp, PageDown, PageUp}
    ensures KeyDown(c, k, size).cursor.selectFrom == Some(if c.selectFrom.Some? then c.selectFrom.value else c.byte)
  {
  }

  /** The key press that types the hex digit `v`, without modifiers. */
  function DigitKey(v: bv8): Key
    requires v < 16
  {
    Key(OtherCode, [HexDigit(v)], false, false, false)
  }

  /** The high-digit edit followed by the low-digit edit leaves the byte the two digits spell. */
  lemma NibblesCompose(x: bv8, i: int, hi: bv8, lo: bv8)
    requires hi < 16 && lo < 16
    ensures R.NewByte(R.NewByte(x, R.Single(R.Upper, i, hi)), R.Single(R.Lower, i, lo)) == Join(hi, lo)
  {
  }

  /**
   * Typing two hex digits on a byte, starting in its high-digit column and
   * applying each emitted edit in turn, leaves that byte equal to the two
   * digits and every other byte as it was.
   */
  lemma TypingTwoDigitsWritesByte(blob: seq<bv8>, i: int, hi: bv8, lo: bv8)
    requires 0 <= i < |blob| && hi < 16 && lo < 16
    ensures var o1 := KeyDown(Cursor(i, Upper, None), DigitKey(hi), |blob|);
            var o2 := KeyDown(o1.cursor, DigitKey(lo), |blob|);
            o1.edit.Some? && o2.edit.Some? &&
            R.Patch(R.Patch(blob, o1.edit.value), o2.edit.value) == blob[i := Join(hi, lo)] &&
            o2.cursor == (if i < |blob| - 1 then Cursor(i + 1, Upper, None) else Cursor(i, Lower, None))
  {
    var o1 := KeyDown(Cursor(i, Upper, None), DigitKey(hi), |blob|);
    TypesHexDigit(Cursor(i, Upper, None), DigitKey(hi), |blob|, hi);
    assert o1 == Outcome(Cursor(i, Lower, None), Some(R.Single(R.Upper, i, hi)));
    var o2 := KeyDown(o1.cursor, DigitKey(lo), |blob|);
    TypesHexDigit(Cursor(i, Lower, None), DigitKey(lo), |blob|, lo);
    NibblesCompose(blob[i], i, hi, lo);
  }

  /** A one-edit list, as the editor hands it over, applies as that edit written in place. */
  lemma {:induction false} ApplyOne(blob: seq<bv8>, e: R.Replacement)
    requires R.InBounds(e, |blob|)
    ensures R.ApplyFrom(blob, [e], 0) == Ok(R.Patch(blob, e))
  {
    assert [e][1..] == [];
    R.ApplyIsPatchAll(blob, [e]);
  }

  // ---------------------------------------------------------------------
  // Clipboard

  /** The bytes `copy` takes: from the smaller of byte and anchor to the larger, inclusive. */
  function SelectionStart(c: Cursor): int {
    if c.selectFrom.Some? && c.selectFrom.value < c.byte then c.selectFrom.value else c.byte
  }

  function SelectionEnd(c: Cursor): int {
    (if c.selectFrom.Some? && c.selectFrom.value > c.byte then c.selectFrom.value else c.byte) + 1
  }

  function Selected(blob: seq<bv8>, c: Cursor): seq<bv8> {
    SliceBytes(blob, SelectionStart(c), SelectionEnd(c))
  }

  /** `a.toString(16).padStart(2, "0")`. */
  function HexByte(b: bv8): (s: string)
    ensures |s| == 2
  {
    [HexDigit(High(b)), HexDigit(Low(b))]
  }

  /** The hex-column copy text: two lower-case digits per byte, separated by single spaces. */
  function HexText(bytes: seq<bv8>): (s: string)
    ensures bytes != [] ==> |s| == 3 * |bytes| - 1
    ensures bytes == [] ==> s == ""
  {
    if bytes == [] then ""
    else if |bytes| == 1 then HexByte(bytes[0])
    else HexByte(bytes[0]) + " " + HexText(bytes[1..])
  }

  /** The character-column copy text: each byte's windows-1252 character. */
  function CharText(bytes: seq<bv8>): (s: string)
    ensures |s| == |bytes|
    ensures forall i :: 0 <= i < |bytes| ==> s[i] == TrueChar(bytes[i])
  {
    if bytes == [] then "" else [TrueChar(bytes[0])] + CharText(bytes[1..])
  }

  /** `copy`: nothing without a cursor, else the selected bytes as text for the cursor's column. */
  function CopyText(blob: seq<bv8>, c: Cursor): Option<string> {
    if c.state == NoSelect then None
    else if c.state == Char then Some(CharText(Selected(blob, c)))
    else Some(HexText(Selected(blob, c)))
  }

  /** Every character of `t` is a hex digit. */
  predicate AllDigits(t: string) {
    forall i :: 0 <= i < |t| ==> HexValue(t[i]).Some?
  }

  /** The hex digits in `s`, in order (`replace(/[^0-9a-f]/gi, "")`). */
  function Trimmed(s: string): (t: string)
    ensures |t| <= |s|
    ensures forall i :: 0 <= i < |t| ==> HexValue(t[i]).Some?
  {
    if s == [] then []
    else (if HexValue(s[0]).Some? then [s[0]] else []) + Trimmed(s[1..])
  }

  /** The values of the hex digits in `s`, skipping every other character. */
  function DigitValues(s: string): (d: seq<bv8>)
    ensures forall i :: 0 <= i < |d| ==> d[i] < 16
  {
    if s == [] then []
    else (match HexValue(s[0]) case Some(v) => [v] case None => []) + DigitValues(s[1..])
  }

  /** The high and low nibble of a byte. */
  function High(b: bv8): (h: bv8)
    ensures h < 16
  {
    b >> 4
  }

  function Low(b: bv8): (l: bv8)
    ensures l < 16
  {
    b & 0x0F
  }

  /** A byte is the join of its two nibbles. */
  lemma JoinHighLow(b: bv8)
    ensures Join(High(b), Low(b)) == b
  {
  }

  /** `parseInt` of two hex digits: the byte with those high and low nibbles. */
  function Join(hi: bv8, lo: bv8): bv8 {
    (hi << 4) | lo
  }

  /** Digit pairs as bytes, high digit first; an odd last digit is completed by a 0. */
  function Pairs(d: seq<bv8>): (r: seq<bv8>)
    ensures |r| == (|d| + 1) / 2
  {
    if d == [] then []
    else if |d| == 1 then [Join(d[0], 0)]
    else [Join(d[0], d[1])] + Pairs(d[2..])
  }

  /** The bytes the windows-1252 characters of `s` stand for; other characters are skipped. */
  function CharBytes(s: string): (r: seq<bv8>)
    ensures |r| <= |s|
  {
    if s == [] then []
    else (match InvChar(s[0]) case Some(b) => [b] case None => []) + CharBytes(s[1..])
  }

  /** What `paste` decodes from clipboard text, by the cursor's column. */
  function PastedBytes(state: CursorState, data: string): seq<bv8> {
    if state == Char then CharBytes(data) else Pairs(DigitValues(data))
  }

  lemma {:induction false} DigitValuesAppend(s: string, t: string)
    ensures DigitValues(s + t) == DigitValues(s) + DigitValues(t)
  {
    if s != [] {
      assert (s + t)[0] == s[0];
      assert (s + t)[1..] == s[1..] + t;
      DigitValuesAppend(s[1..], t);
      var head := match HexValue(s[0]) case Some(v) => [v] case None => [];
      assert DigitValues(s + t) == head + (DigitValues(s[1..]) + DigitValues(t));
    } else {
      assert s + t == t;
    }
  }

  lemma {:induction false} CharBytesAppend(s: string, t: string)
    ensures CharBytes(s + t) == CharBytes(s) + CharBytes(t)
  {
    if s != [] {
      assert (s + t)[0] == s[0];
      assert (s + t)[1..] == s[1..] + t;
      CharBytesAppend(s[1..], t);
      var head := match InvChar(s[0]) case Some(b) => [b] case None => [];
      assert CharBytes(s + t) == head + (CharBytes(s[1..]) + CharBytes(t));
    } else {
      assert s + t == t;
    }
  }

  lemma {:induction false} PairsAppend(a: seq<bv8>, b: seq<bv8>)
    requires |a| % 2 == 0
    ensures Pairs(a + b) == Pairs(a) + Pairs(b)
    decreases |a|
  {
    if a != [] {
      assert (a + b)[0] == a[0] && (a + b)[1] == a[1];
      assert (a + b)[2..] == a[2..] + b;
      PairsAppend(a[2..], b);
      assert Pairs(a + b) == [Join(a[0], a[1])] + (Pairs(a[2..]) + Pairs(b));
    } else {
      assert a + b == b;
    }
  }

  /** Stripping the non-digits first reads the same digits. */
  lemma {:induction false} TrimmedDigits(s: string)
    ensures DigitValues(Trimmed(s)) == DigitValues(s)
    ensures |DigitValues(s)| == |Trimmed(s)|
  {
    if s != [] {
      TrimmedDigits(s[1..]);
      var head := if HexValue(s[0]).Some? then [s[0]] else [];
      DigitValuesAppend(head, Trimmed(s[1..]));
      assert head != [] ==> head[1..] == [];
    }
  }

  lemma CharBytesOne(ch: char)
    ensures CharBytes([ch]) == if InvChar(ch).Some? then [InvChar(ch).value] else []
  {
    assert [ch][1..] == [];
  }

  /** The character-column decoding loop of `paste`: unmapped characters are skipped. */
  method CharPaste(data: string) returns (bytes: seq<bv8>)
    ensures bytes == CharBytes(data)
  {
    bytes := [];
    var i := 0;
    while i < |data|
      invariant 0 <= i <= |data|
      invariant bytes == CharBytes(data[..i])
    {
      var byte := InvChar(data[i]);
      assert data[..i + 1] == data[..i] + [data[i]];
      CharBytesAppend(data[..i], [data[i]]);
      CharBytesOne(data[i]);
      if byte.Some? {
        bytes := bytes + [byte.value];
      }
      i := i + 1;
    }
    assert data[..|data|] == data;
  }

  /** The hex-column decoding of `paste`: keep the digits, pad to even length with '0', read pairs. */
  method HexPaste(data: string) returns (bytes: seq<bv8>)
    ensures bytes == Pairs(DigitValues(data))
  {
    var trimmed := Trimmed(data);
    if |trimmed| % 2 != 0 {
      trimmed := trimmed + "0";
    }
    PaddedTrimmed(data);
    bytes := ReadPairs(trimmed);
  }

  /** The `parseInt(trimmed.substring(i, i + 2), 16)` loop over an even run of digits. */
  method ReadPairs(t: string) returns (bytes: seq<bv8>)
    requires AllDigits(t) && |t| % 2 == 0
    ensures bytes == Pairs(DigitValues(t))
  {
    ghost var pairs := |t| / 2;
    bytes := [];
    var i := 0;
    ghost var k := 0;
    while i < |t|
      invariant i == 2 * k && 0 <= k <= pairs && |t| == 2 * pairs
      invariant bytes == Pairs(DigitValues(t[..i]))
      invariant |DigitValues(t[..i])| == i
    {
      var hi := HexValue(t[i]).value;
      var lo := HexValue(t[i + 1]).value;
      PairsStep(t, i, k);
      bytes := bytes + [Join(hi, lo)];
      i := i + 2;
      k := k + 1;
    }
    assert t[..|t|] == t;
  }

  /** What the padded digit string reads as: the digits of the text, their pairs unchanged. */
  lemma PaddedTrimmed(data: string)
    ensures var t := Trimmed(data);
            var p := if |t| % 2 != 0 then t + "0" else t;
            |p| % 2 == 0 && AllDigits(p) &&
            Pairs(DigitValues(p)) == Pairs(DigitValues(data))
  {
    var t := Trimmed(data);
    TrimmedDigits(data);
    var digits := DigitValues(data);
    if |t| % 2 != 0 {
      DigitValuesAppend(t, "0");
      assert DigitValues("0") == [0] by { assert "0"[1..] == []; }
    }
    PaddedPairs(digits);
  }

  /** Reading two more digit characters adds the byte they spell. */
  lemma PairsStep(t: string, i: int, k: int)
    requires 0 <= i && i + 2 <= |t| && AllDigits(t)
    requires |DigitValues(t[..i])| == i && i == 2 * k
    ensures |DigitValues(t[..i + 2])| == i + 2
    ensures Pairs(DigitValues(t[..i + 2])) == Pairs(DigitValues(t[..i])) + [Join(HexValue(t[i]).value, HexValue(t[i + 1]).value)]
  {
    var hi, lo := HexValue(t[i]).value, HexValue(t[i + 1]).value;
    var pre := DigitValues(t[..i]);
    TakeTwoMore(t, i);
    DigitPair(t[..i], t[i], t[i + 1]);
    assert DigitValues(t[..i + 2]) == pre + [hi, lo];
    PairsAppend(pre, [hi, lo]);
    PairsOfTwo(hi, lo);
  }

  lemma PairsOfTwo(hi: bv8, lo: bv8)
    ensures Pairs([hi, lo]) == [Join(hi, lo)]
  {
    assert [hi, lo][2..] == [];
  }

  lemma TakeTwoMore(s: string, i: int)
    requires 0 <= i && i + 2 <= |s|
    ensures s[..i + 2] == s[..i] + [s[i], s[i + 1]]
  {
  }

  /** Two more digit characters add their two values. */
  lemma {:induction false} DigitPair(s: string, x: char, y: char)
    requires HexValue(x).Some? && HexValue(y).Some?
    ensures DigitValues(s + [x, y]) == DigitValues(s) + [HexValue(x).value, HexValue(y).value]
  {
    DigitValuesAppend(s, [x, y]);
    assert DigitValues([y]) == [HexValue(y).value] by { assert [y][1..] == []; }
    assert DigitValues([x, y]) == [HexValue(x).value] + DigitValues([y]) by { assert [x, y][1..] == [y]; }
  }

  /**
   * `paste`: nothing without a cursor; otherwise one range edit at the cursor
   * with the decoded bytes, and a cursor on the last pasted byte anchored at
   * the first.
   */
  method Paste(c: Cursor, data: string) returns (r: Option<(R.Replacement, Cursor)>)
    ensures c.state == NoSelect ==> r == None
    ensures c.state != NoSelect ==>
      var bytes := PastedBytes(c.state, data);
      r == Some((R.Range(c.byte, bytes), Cursor(c.byte + |bytes| - 1, c.state, Some(c.byte))))
  {
    if c.state == NoSelect {
      return None;
    }
    var bytes: seq<bv8>;
    if c.state == Char {
      bytes := CharPaste(data);
    } else {
      bytes := HexPaste(data);
    }
    var offset := c.byte;
    r := Some((R.Range(offset, bytes), Cursor(offset + |bytes| - 1, c.state, Some(offset))));
  }

  /** Padding an odd digit string with a 0 does not change its pairs. */
  lemma {:induction false} PaddedPairs(d: seq<bv8>)
    ensures Pairs(d + (if |d| % 2 != 0 then [0] else [])) == Pairs(d)
    decreases |d|
  {
    if |d| >= 2 {
      var pad: seq<bv8> := if |d| % 2 != 0 then [0] else [];
      assert (d + pad)[2..] == d[2..] + pad;
      PaddedPairs(d[2..]);
    } else if |d| == 1 {
      assert d + [0] == [d[0], 0];
      assert [d[0], 0][2..] == [];
    } else {
      assert d + [] == d;
    }
  }

  /** Every byte's two digits, high first. */
  function Nibbles(bytes: seq<bv8>): (d: seq<bv8>)
    ensures |d| == 2 * |bytes|
  {
    if bytes == [] then [] else [High(bytes[0]), Low(bytes[0])] + Nibbles(bytes[1..])
  }

  /** The two digits of one byte read back as its two nibbles. */
  lemma HexByteDigits(b: bv8)
    ensures DigitValues(HexByte(b)) == [High(b), Low(b)]
  {
    var h := HexByte(b);
    HexDigitValue(High(b));
    HexDigitValue(Low(b));
    DigitPair([], h[0], h[1]);
    assert [] + [h[0], h[1]] == h;
  }

  lemma {:induction false} HexTextDigits(bytes: seq<bv8>)
    ensures DigitValues(HexText(bytes)) == Nibbles(bytes)
  {
    if bytes != [] {
      var b := bytes[0];
      HexByteDigits(b);
      assert Nibbles(bytes) == [High(b), Low(b)] + Nibbles(bytes[1..]);
      if |bytes| == 1 {
        assert bytes[1..] == [];
      } else {
        HexTextDigits(bytes[1..]);
        SpacedDigits(HexByte(b), HexText(bytes[1..]));
      }
    }
  }

  /** The separating space reads as no digit. */
  lemma {:induction false} SpacedDigits(h: string, rest: string)
    ensures DigitValues(h + " " + rest) == DigitValues(h) + DigitValues(rest)
  {
    DigitValuesAppend(h + " ", rest);
    DigitValuesAppend(h, " ");
    assert DigitValues(" ") == [] by { assert " "[1..] == []; }
  }

  lemma {:induction false} PairsOfNibbles(bytes: seq<bv8>)
    ensures Pairs(Nibbles(bytes)) == bytes
  {
    if bytes != [] {
      var b := bytes[0];
      var d := Nibbles(bytes);
      assert d[2..] == Nibbles(bytes[1..]);
      PairsOfNibbles(bytes[1..]);
      JoinHighLow(b);
    }
  }

  lemma {:induction false} CharTextBytes(bytes: seq<bv8>)
    ensures CharBytes(CharText(bytes)) == bytes
  {
    if bytes != [] {
      CharRoundTrip(bytes[0]);
      CharBytesAppend([TrueChar(bytes[0])], CharText(bytes[1..]));
      assert [TrueChar(bytes[0])][1..] == [];
      CharTextBytes(bytes[1..]);
    }
  }

  /** Pasting what `copy` put on the clipboard decodes back to the copied bytes, in either column. */
  lemma CopyPasteRoundTrip(blob: seq<bv8>, c: Cursor)
    requires c.state != NoSelect
    ensures CopyText(blob, c).Some?
    ensures PastedBytes(c.state, CopyText(blob, c).value) == Selected(blob, c)
  {
    var bytes := Selected(blob, c);
    if c.state == Char {
      CharTextBytes(bytes);
    } else {
      HexTextDigits(bytes);
      PairsOfNibbles(bytes);
    }
  }

  /**
   * Copying a selection and pasting it with the cursor at the selection's
   * start emits an edit that leaves the blob as it was, and re-selects the
   * same bytes.
   */
  lemma {:induction false} PasteOwnCopyKeepsBlob(blob: seq<bv8>, c: Cursor)
    requires c.state != NoSelect && Placed(c, |blob|)
    requires c.selectFrom.Some? ==> c.byte <= c.selectFrom.value
    ensures var bytes := PastedBytes(c.state, CopyText(blob, c).value);
            var edit := R.Range(c.byte, bytes);
            var next := Cursor(c.byte + |bytes| - 1, c.state, Some(c.byte));
            R.ApplyFrom(blob, [edit], 0) == Ok(blob) &&
            SelectionStart(next) == SelectionStart(c) && SelectionEnd(next) == SelectionEnd(c)
  {
    CopyPasteRoundTrip(blob, c);
    var lo, hi := SelectionStart(c), SelectionEnd(c);
    assert lo == c.byte && lo < hi <= |blob|;
    assert PastedBytes(c.state, CopyText(blob, c).value) == blob[lo..hi];
    var edit := R.Range(c.byte, blob[lo..hi]);
    assert R.InBounds(edit, |blob|) && R.End(edit) == hi;
    assert R.Patch(blob, edit) == blob[..lo] + blob[lo..hi] + blob[hi..];
    R.MidJoin(blob, lo, hi);
    R.SplitJoin(blob, lo);
    assert blob[..lo] + blob[lo..hi] + blob[hi..] == blob;
    ApplyOne(blob, edit);
  }

  // ---------------------------------------------------------------------
  // Row addresses

  /** How many hex digits `x` has (none for 0). */
  function HexLength(x: nat): nat {
    if x == 0 then 0 else 1 + HexLength(x / 16)
  }

  function Pow16(n: nat): nat {
    if n == 0 then 1 else 16 * Pow16(n - 1)
  }

  /** `HexLength` is the digit count: 16^(n-1) <= x < 16^n. */
  lemma {:induction false} HexLengthBounds(x: nat)
    ensures x < Pow16(HexLength(x))
    ensures x > 0 ==> Pow16(HexLength(x) - 1) <= x
  {
    if x > 0 {
      HexLengthBounds(x / 16);
    }
  }

  /** ECMAScript ToUint32, the conversion `>>>` applies first. */
  function ToUint32(x: int): (r: nat)
    ensures r < 0x1_0000_0000
    ensures 0 <= x < 0x1_0000_0000 ==> r == x
  {
    x % 0x1_0000_0000
  }

  /**
   * The address-digit loop of `HexEditorRow`: shift the blob size right by a
   * hex digit until nothing is left. For a size that fits in 32 bits the
   * count is the size's hex digit count; a larger size is first cut to its
   * low 32 bits by `>>>`.
   */
  method AddressDigits(maxAddr: int) returns (n: nat)
    ensures maxAddr <= 0 ==> n == 0
    ensures maxAddr > 0 ==> n == 1 + HexLength(ToUint32(maxAddr) / 16)
    ensures 0 < maxAddr < 0x1_0000_0000 ==> n == HexLength(maxAddr)
  {
    var shift := maxAddr;
    n := 0;
    while shift > 0
      invariant n == 0 ==> shift == maxAddr
      invariant n > 0 ==> maxAddr > 0 && 0 <= shift < 0x1_0000_0000 && n + HexLength(shift) == 1 + HexLength(ToUint32(maxAddr) / 16)
      decreases if n == 0 then 1 else 0, if shift < 0 then 0 else shift
    {
      shift := ToUint32(shift) / 16;
      n := n + 1;
    }
  }
}
