/**
 * Percent encoding of form values and the query of a sign-in callback (section 2.1 of RFC 3986). Text is
 * its UTF-8 bytes throughout.
 */
module FormEncoding {
  import opened Wrappers

  const PERCENT: Byte := 37
  const PLUS: Byte := 43
  const AMPERSAND: Byte := 38
  const EQUALS: Byte := 61
  const SPACE: Byte := 32

  // ---------- encoding ----------

  predicate Unreserved(b: Byte)
  {
    65 <= b <= 90 || 97 <= b <= 122 || 48 <= b <= 57 || b == 45 || b == 95 || b == 46 || b == 126
  }

  /** The upper-case digit for `n`. */
  function HexDigit(n: int): (b: Byte)
    requires 0 <= n < 16
    ensures HexValue(b) == Some(n) && Unreserved(b)
  {
    if n < 10 then 48 + n else 55 + n
  }

  /** Decoding takes either case. */
  function HexValue(b: Byte): (n: Option<int>)
    ensures n.Some? ==> 0 <= n.value < 16
  {
    if 48 <= b <= 57 then Some(b - 48)
    else if 65 <= b <= 70 then Some(b - 55)
    else if 97 <= b <= 102 then Some(b - 87)
    else None
  }

  function EncodedByte(b: Byte): (e: Bytes)
    ensures e != [] && forall x :: x in e ==> Unreserved(x) || x == PERCENT
  {
    if Unreserved(b) then [b] else [PERCENT, HexDigit((b as int) / 16), HexDigit((b as int) % 16)]
  }

  function Encoded(s: Bytes): (e: Bytes)
    ensures forall x :: x in e ==> Unreserved(x) || x == PERCENT
  {
    if s == [] then [] else EncodedByte(s[0]) + Encoded(s[1..])
  }

  method UrlEncode(s: Bytes) returns (out: Bytes)
    ensures out == Encoded(s)
  {
    hide Encoded;
    out := [];
    EncodeNothing(s);
    for i := 0 to |s|
      invariant out + Encoded(s[i..]) == Encoded(s)
    {
      var b := s[i];
      EncodeStep(s, i);
      Associate(out, EncodedByte(b), Encoded(s[i + 1..]));
      if Unreserved(b) {
        out := out + [b];
      } else {
        out := out + [PERCENT, HexDigit((b as int) / 16), HexDigit((b as int) % 16)];
      }
    }
    assert out + [] == out;
  }

  lemma EncodeNothing(s: Bytes)
    ensures [] + Encoded(s[0..]) == Encoded(s) && Encoded(s[|s|..]) == []
  {
    assert s[0..] == s && [] + Encoded(s) == Encoded(s);
  }

  lemma EncodeStep(s: Bytes, i: nat)
    requires i < |s|
    ensures Encoded(s[i..]) == EncodedByte(s[i]) + Encoded(s[i + 1..])
  {
    assert s[i..][1..] == s[i + 1..];
  }

  lemma Associate(a: Bytes, b: Bytes, c: Bytes)
    ensures a + (b + c) == a + b + c
  {
  }

  // ---------- decoding ----------

  /** Two bytes read as a hexadecimal number, as the library reads it: a plus sign may take the first place. */
  function HexPair(a: Byte, b: Byte): Option<Byte>
  {
    match (HexValue(a), HexValue(b))
    case (Some(h), Some(l)) => Some(16 * h + l)
    case (None, Some(l)) => if a == PLUS then Some(l) else None
    case _ => None
  }

  predicate IsContinuation(b: Byte)
  {
    128 <= b < 192
  }

  /** A percent sign with at least two bytes after it, where the text cannot be cut around the first two of them. */
  predicate CutAt(s: Bytes, i: int)
  {
    0 <= i && i + 2 < |s| && s[i] == PERCENT &&
    (IsContinuation(s[i + 1]) || (i + 3 < |s| && IsContinuation(s[i + 3])))
  }

  /** Somewhere a percent sign is followed by a character that does not end with its second byte. */
  predicate CutsCharacter(s: Bytes)
  {
    exists i :: 0 <= i < |s| && CutAt(s, i)
  }

  /** Nothing if the text would have to be cut inside a character. */
  function Decoded(s: Bytes): Option<Bytes>
    decreases |s|
  {
    if s == [] then Some([])
    else if s[0] == PERCENT && |s| > 2 then
      if CutAt(s, 0) then None
      else
        match HexPair(s[1], s[2])
        case Some(b) => Prepend(b, Decoded(s[3..]))
        case None => Prepend(PERCENT, Decoded(s[1..]))
    else Prepend(if s[0] == PLUS then SPACE else s[0], Decoded(s[1..]))
  }

  function Prepend(b: Byte, rest: Option<Bytes>): Option<Bytes>
  {
    match rest
    case Some(tail) => Some([b] + tail)
    case None => None
  }

  function Append(head: Bytes, rest: Option<Bytes>): Option<Bytes>
  {
    match rest
    case Some(tail) => Some(head + tail)
    case None => None
  }

  method UrlDecode(s: Bytes) returns (result: Option<Bytes>)
    ensures result == Decoded(s)
    ensures result == if CutsCharacter(s) then None else Some(ReadLocally(s, 0))
  {
    hide ReadLocally, CutsCharacter;
    DecodesLocally(s);
    var out: Bytes := [];
    var i := 0;
    assert s[0..] == s;
    AppendNothing(Decoded(s));
    while i < |s|
      invariant i <= |s| && Append(out, Decoded(s[i..])) == Decoded(s)
    {
      ghost var tail := s[i..];
      if s[i] == PERCENT && i + 2 < |s| {
        if IsContinuation(s[i + 1]) || (i + 3 < |s| && IsContinuation(s[i + 3])) { return None; }
        var pair := HexPair(s[i + 1], s[i + 2]);
        if pair.Some? {
          assert tail[3..] == s[i + 3..];
          AppendPrepend(out, pair.value, Decoded(s[i + 3..]));
          out := out + [pair.value];
          i := i + 3;
          continue;
        }
        assert tail[1..] == s[i + 1..];
        AppendPrepend(out, PERCENT, Decoded(s[i + 1..]));
        out := out + [PERCENT];
        i := i + 1;
      } else if s[i] == PLUS {
        assert tail[1..] == s[i + 1..];
        AppendPrepend(out, SPACE, Decoded(s[i + 1..]));
        out := out + [SPACE];
        i := i + 1;
      } else {
        assert tail[1..] == s[i + 1..];
        AppendPrepend(out, s[i], Decoded(s[i + 1..]));
        out := out + [s[i]];
        i := i + 1;
      }
    }
    assert s[i..] == [];
    assert out + [] == out;
    return Some(out);
  }

  // ---------- what decoding means, position by position ----------

  /** An escape starts here: a percent sign and two bytes that make a number. */
  predicate EscapeAt(s: Bytes, i: int)
  {
    0 <= i && i + 2 < |s| && s[i] == PERCENT && HexPair(s[i + 1], s[i + 2]).Some?
  }

  predicate InsideEscape(s: Bytes, i: int)
  {
    EscapeAt(s, i - 1) || EscapeAt(s, i - 2)
  }

  /** The byte that a position stands for when it is not inside an escape. */
  function ByteAt(s: Bytes, i: int): Byte
    requires 0 <= i < |s|
  {
    if EscapeAt(s, i) then HexPair(s[i + 1], s[i + 2]).value
    else if s[i] == PLUS then SPACE
    else s[i]
  }

  /** Every position from `i` on is read by itself: escapes cannot overlap, so there is nothing to remember. */
  function ReadLocally(s: Bytes, i: nat): Bytes
    requires i <= |s|
    decreases |s| - i
  {
    if i == |s| then []
    else if InsideEscape(s, i) then ReadLocally(s, i + 1)
    else [ByteAt(s, i)] + ReadLocally(s, i + 1)
  }

  /**
   * For every text: decoding has no result exactly when a character is cut, and otherwise reads each position
   * by itself.
   */
  lemma DecodesLocally(s: Bytes)
    ensures Decoded(s) == if CutsCharacter(s) then None else Some(ReadLocally(s, 0))
  {
    DecodesFrom(s, 0);
    assert s[0..] == s;
  }

  ghost predicate CutsFrom(s: Bytes, k: int)
  {
    exists i :: k <= i < |s| && CutAt(s, i)
  }

  lemma {:induction false} DecodesFrom(s: Bytes, k: nat)
    requires k <= |s| && !InsideEscape(s, k)
    ensures Decoded(s[k..]) == if CutsFrom(s, k) then None else Some(ReadLocally(s, k))
    decreases |s| - k
  {
    var t := s[k..];
    if k == |s| {
      assert t == [];
    } else {
      assert CutAt(t, 0) == CutAt(s, k);
      if EscapeAt(s, k) {
        EscapeIsAlone(s, k);
        DecodesFrom(s, k + 3);
        assert t[3..] == s[k + 3..];
        assert ReadLocally(s, k + 1) == ReadLocally(s, k + 2) == ReadLocally(s, k + 3);
        assert CutsFrom(s, k) <==> CutAt(s, k) || CutsFrom(s, k + 3);
      } else {
        DecodesFrom(s, k + 1);
        assert t[1..] == s[k + 1..];
        assert CutsFrom(s, k) <==> CutAt(s, k) || CutsFrom(s, k + 1);
      }
    }
  }

  lemma EscapeIsAlone(s: Bytes, k: nat)
    requires EscapeAt(s, k)
    ensures s[k + 1] != PERCENT && s[k + 2] != PERCENT && !InsideEscape(s, k + 3)
    ensures InsideEscape(s, k + 1) && InsideEscape(s, k + 2)
  {
  }

  /** A percent sign, a letter and a two-byte character: the text would be cut between the two bytes. */
  lemma CutExample()
    ensures Decoded([PERCENT, 97, 195, 169]) == None
  {
    var s: Bytes := [PERCENT, 97, 195, 169];
    assert CutAt(s, 0);
    DecodesLocally(s);
  }

  lemma AppendNothing(rest: Option<Bytes>)
    ensures Append([], rest) == rest
  {
    if rest.Some? { assert [] + rest.value == rest.value; }
  }

  lemma AppendPrepend(out: Bytes, b: Byte, rest: Option<Bytes>)
    ensures Append(out, Prepend(b, rest)) == Append(out + [b], rest)
  {
    if rest.Some? { assert out + ([b] + rest.value) == out + [b] + rest.value; }
  }

  /** Every text comes back, whatever encoded text follows. */
  lemma {:induction false} EncodeThenDecode(s: Bytes)
    ensures Decoded(Encoded(s)) == Some(s)
  {
    if s != [] {
      EncodeThenDecode(s[1..]);
      DecodeOne(s[0], Encoded(s[1..]));
      assert s == [s[0]] + s[1..];
    }
  }

  lemma DecodeOne(b: Byte, rest: Bytes)
    requires rest != [] ==> !IsContinuation(rest[0])
    ensures Decoded(EncodedByte(b) + rest) == Prepend(b, Decoded(rest))
  {
    var s := EncodedByte(b) + rest;
    if Unreserved(b) {
      assert s[1..] == rest;
    } else {
      assert s[3..] == rest;
      assert HexPair(s[1], s[2]) == Some(b);
    }
  }

  // ---------- the same in characters ----------

  /** A hexadecimal digit of either case, with its value. */
  predicate IsHex(b: Byte, n: int)
  {
    0 <= n < 16 &&
    ((b as int) == "0123456789abcdef"[n] as int || (b as int) == "0123456789ABCDEF"[n] as int)
  }

  lemma HexMeans(b: Byte, n: int)
    ensures HexValue(b) == Some(n) <==> IsHex(b, n)
  {
  }

  /** Two bytes are read as two hexadecimal digits, or as a plus sign and one. */
  lemma PairMeans(a: Byte, b: Byte, v: Byte)
    ensures HexPair(a, b) == Some(v) <==>
            exists l ::
              IsHex(b, l) && ((exists h :: IsHex(a, h) && v as int == 16 * h + l) || (a == 43 && v as int == l))
  {
    forall n ensures HexValue(a) == Some(n) <==> IsHex(a, n) { HexMeans(a, n); }
    forall n ensures HexValue(b) == Some(n) <==> IsHex(b, n) { HexMeans(b, n); }
    hide IsHex;
    if HexValue(a).Some? { assert IsHex(a, HexValue(a).value); }
    if HexValue(b).Some? { assert IsHex(b, HexValue(b).value); }
  }

  /** Letters, digits and the four marks stand for themselves; every other byte is written in hexadecimal. */
  lemma EncodedOne(b: Byte)
    ensures Encoded([b]) ==
            if 65 <= b <= 90 || 97 <= b <= 122 || 48 <= b <= 57 || b in {45, 46, 95, 126} then [b]
            else [37, "0123456789ABCDEF"[(b as int) / 16] as int, "0123456789ABCDEF"[(b as int) % 16] as int]
  {
    assert [b][1..] == [] && Encoded([]) == [];
    assert Encoded([b]) == EncodedByte(b) + [];
  }

  /** Texts are encoded byte by byte. */
  lemma {:induction false} EncodedConcat(a: Bytes, b: Bytes)
    ensures Encoded(a + b) == Encoded(a) + Encoded(b)
  {
    if a == [] {
      assert a + b == b;
    } else {
      assert (a + b)[1..] == a[1..] + b;
      EncodedConcat(a[1..], b);
      Associate(EncodedByte(a[0]), Encoded(a[1..]), Encoded(b));
    }
  }

  /** Where a text cannot be cut: after a percent sign, around two bytes that split a UTF-8 character. */
  lemma CutMeans(s: Bytes, i: nat)
    ensures CutAt(s, i) <==>
            i + 2 < |s| && s[i] as int == '%' as int &&
            (0x80 <= s[i + 1] <= 0xBF || (i + 3 < |s| && 0x80 <= s[i + 3] <= 0xBF))
  {
  }

  /** A position that starts no escape stands for itself, but a plus sign for a space. */
  lemma PositionMeans(s: Bytes, i: nat)
    requires i < |s|
    ensures EscapeAt(s, i) <==> i + 2 < |s| && s[i] as int == '%' as int && HexPair(s[i + 1], s[i + 2]).Some?
    ensures !EscapeAt(s, i) ==> ByteAt(s, i) == if s[i] as int == '+' as int then 32 else s[i]
    ensures EscapeAt(s, i) ==> HexPair(s[i + 1], s[i + 2]) == Some(ByteAt(s, i))
  {
  }

  // ---------- the callback query ----------

  const CODE: Bytes := [99, 111, 100, 101]
  const STATE: Bytes := [115, 116, 97, 116, 101]
  const ERROR: Bytes := [101, 114, 114, 111, 114]

  datatype Callback = Callback(code: Option<Bytes>, state: Bytes, error: Option<Bytes>)

  const NO_PARAMETERS := Callback(None, [], None)

  datatype Field = Field(name: Bytes, value: Bytes)

  function IndexOf(s: Bytes, b: Byte): (n: nat)
    ensures n <= |s| && b !in s[..n] && (n < |s| ==> s[n] == b)
  {
    if s == [] || s[0] == b then 0
    else
      var n := IndexOf(s[1..], b);
      assert s[..n + 1] == [s[0]] + s[1..][..n];
      n + 1
  }

  /** The pieces between ampersands; there is always at least one. */
  function Pieces(s: Bytes): (pieces: seq<Bytes>)
    decreases |s|
  {
    var at := IndexOf(s, AMPERSAND);
    if at == |s| then [s] else [s[..at]] + Pieces(s[at + 1..])
  }

  /** The pieces are what stands between the ampersands. */
  lemma {:induction false} PiecesBetweenAmpersands(s: Bytes)
    ensures Rejoined(Pieces(s)) == s && forall piece :: piece in Pieces(s) ==> AMPERSAND !in piece
    decreases |s|
  {
    var at := IndexOf(s, AMPERSAND);
    if at < |s| {
      PiecesBetweenAmpersands(s[at + 1..]);
      assert s == s[..at] + ([AMPERSAND] + s[at + 1..]);
    } else {
      assert s[..at] == s;
    }
  }

  function Rejoined(pieces: seq<Bytes>): Bytes
  {
    if pieces == [] then []
    else if |pieces| == 1 then pieces[0]
    else pieces[0] + ([AMPERSAND] + Rejoined(pieces[1..]))
  }

  /** A name and a value still encoded, cut at the first equals sign. */
  function CutPiece(piece: Bytes): (Bytes, Bytes)
  {
    var at := IndexOf(piece, EQUALS);
    (piece[..at], if at == |piece| then [] else piece[at + 1..])
  }

  /** The name has no equals sign; what follows the first one, if there is one, is the value. */
  lemma CutPieceMeans(piece: Bytes)
    ensures var (name, value) := CutPiece(piece);
            61 !in name && ((piece == name && value == []) || piece == name + [61] + value)
  {
  }

  /** The names and separators, as text. */
  lemma SpelledOut(i: nat)
    ensures |CODE| == |"code"| && (i < 4 ==> CODE[i] as int == "code"[i] as int)
    ensures |STATE| == |"state"| && (i < 5 ==> STATE[i] as int == "state"[i] as int)
    ensures |ERROR| == |"error"| && (i < 5 ==> ERROR[i] as int == "error"[i] as int)
    ensures AMPERSAND as int == '&' as int && EQUALS as int == '=' as int
  {
  }

  function WithField(cb: Callback, name: Bytes, value: Bytes): Callback
  {
    if name == CODE then cb.(code := Some(value))
    else if name == STATE then cb.(state := value)
    else if name == ERROR then cb.(error := Some(value))
    else cb
  }

  function ReadPieces(pieces: seq<Bytes>, cb: Callback): Option<Callback>
  {
    if pieces == [] then Some(cb) else
      var (name, text) := CutPiece(pieces[0]);
      var value := Decoded(text);
      if value.None? then None else ReadPieces(pieces[1..], WithField(cb, name, value.value))
  }

  /** The fields of a query, each with the value of its text read position by position. */
  function FieldsOf(pieces: seq<Bytes>): (fields: seq<Field>)
    ensures |fields| == |pieces|
    ensures forall i :: 0 <= i < |pieces| ==>
                          fields[i] == Field(CutPiece(pieces[i]).0, ReadLocally(CutPiece(pieces[i]).1, 0))
  {
    seq(|pieces|, i requires 0 <= i < |pieces| =>
      Field(CutPiece(pieces[i]).0, ReadLocally(CutPiece(pieces[i]).1, 0)))
  }

  /** No result exactly when some value cuts a character; otherwise of the fields with one name the last counts. */
  method FromQuery(query: Bytes) returns (result: Option<Callback>)
    ensures result == ReadPieces(Pieces(query), NO_PARAMETERS)
    ensures result.None? <==> exists piece :: piece in Pieces(query) && CutsCharacter(CutPiece(piece).1)
    ensures result.Some? ==>
              var fields := FieldsOf(Pieces(query));
              result.value == Callback(LastValue(fields, CODE), OrElse(LastValue(fields, STATE), []),
                                       LastValue(fields, ERROR))
  {
    hide CutPiece, Decoded, WithField, CutsCharacter, ReadLocally, ReadPieces, Pieces, FieldsOf, LastValue, OrElse;
    var pieces := Pieces(query);
    QueryMeaning(pieces);
    var cb := NO_PARAMETERS;
    assert pieces[0..] == pieces;
    for i := 0 to |pieces|
      invariant ReadPieces(pieces[i..], cb) == ReadPieces(pieces, NO_PARAMETERS)
    {
      PieceStep(pieces, i, cb);
      var (name, text) := CutPiece(pieces[i]);
      var value := UrlDecode(text);
      if value.None? { return None; }
      cb := WithField(cb, name, value.value);
    }
    PieceEnd(pieces, cb);
    return Some(cb);
  }

  lemma PieceStep(pieces: seq<Bytes>, i: nat, cb: Callback)
    requires i < |pieces|
    ensures var (name, text) := CutPiece(pieces[i]);
            var value := Decoded(text);
            ReadPieces(pieces[i..], cb) ==
            if value.None? then None else ReadPieces(pieces[i + 1..], WithField(cb, name, value.value))
  {
    assert pieces[i..][0] == pieces[i] && pieces[i..][1..] == pieces[i + 1..];
  }

  lemma PieceEnd(pieces: seq<Bytes>, cb: Callback)
    ensures ReadPieces(pieces[|pieces|..], cb) == Some(cb)
  {
  }

  lemma QueryMeaning(pieces: seq<Bytes>)
    ensures var r := ReadPieces(pieces, NO_PARAMETERS);
            var fields := FieldsOf(pieces);
            (r.None? <==> exists piece :: piece in pieces && CutsCharacter(CutPiece(piece).1)) &&
            (r.Some? ==>
               r.value == Callback(LastValue(fields, CODE), OrElse(LastValue(fields, STATE), []),
                                   LastValue(fields, ERROR)))
  {
    hide CutPiece, CutsCharacter, ReadLocally, ReadPieces, WithField, LastValue, OrElse, FieldsOf;
    PiecesCut(pieces, NO_PARAMETERS);
    if ReadPieces(pieces, NO_PARAMETERS).Some? { PiecesRead(pieces, NO_PARAMETERS); }
    LastFieldCounts(FieldsOf(pieces));
  }

  lemma {:induction false} PiecesCut(pieces: seq<Bytes>, cb: Callback)
    ensures ReadPieces(pieces, cb).None? <==> exists piece :: piece in pieces && CutsCharacter(CutPiece(piece).1)
    decreases |pieces|
  {
    if pieces != [] {
      hide CutPiece, Decoded, CutsCharacter, ReadLocally, WithField;
      var (name, text) := CutPiece(pieces[0]);
      DecodesLocally(text);
      assert pieces == [pieces[0]] + pieces[1..];
      if !CutsCharacter(text) { PiecesCut(pieces[1..], WithField(cb, name, Decoded(text).value)); }
    }
  }

  lemma {:induction false} PiecesRead(pieces: seq<Bytes>, cb: Callback)
    requires ReadPieces(pieces, cb).Some?
    ensures ReadPieces(pieces, cb).value == WithFields(cb, FieldsOf(pieces))
    decreases |pieces|
  {
    if pieces != [] {
      hide CutPiece, Decoded, CutsCharacter, ReadLocally, WithField, FieldsOf;
      var (name, text) := CutPiece(pieces[0]);
      DecodesLocally(text);
      PiecesRead(pieces[1..], WithField(cb, name, Decoded(text).value));
      assert FieldsOf(pieces)[1..] == FieldsOf(pieces[1..]);
    }
  }

  /** A query with such a value: there is no result for the whole query, whatever the name of the field is. */
  lemma CutQueryExample(name: Bytes)
    requires PlainName(name)
    ensures ReadPieces(Pieces(name + [EQUALS, PERCENT, 97, 195, 169]), NO_PARAMETERS) == None
  {
    var text: Bytes := [PERCENT, 97, 195, 169];
    var query := name + ([EQUALS] + text);
    assert query == name + [EQUALS, PERCENT, 97, 195, 169];
    IndexAfter(name, EQUALS, text);
    NotInJoined(name, EQUALS, text, AMPERSAND);
    IndexAfter(query, AMPERSAND, []);
    assert CutAt(text, 0);
    assert Pieces(query) == [query] && query in Pieces(query) && CutPiece(query).1 == text;
    PiecesCut(Pieces(query), NO_PARAMETERS);
  }

  function FieldText(field: Field): Bytes
  {
    field.name + ([EQUALS] + Encoded(field.value))
  }

  function QueryOf(fields: seq<Field>): Bytes
  {
    if fields == [] then []
    else if |fields| == 1 then FieldText(fields[0])
    else FieldText(fields[0]) + ([AMPERSAND] + QueryOf(fields[1..]))
  }

  function WithFields(cb: Callback, fields: seq<Field>): Callback
    decreases |fields|
  {
    if fields == [] then cb else WithFields(WithField(cb, fields[0].name, fields[0].value), fields[1..])
  }

  predicate PlainName(name: Bytes)
  {
    AMPERSAND !in name && EQUALS !in name
  }

  lemma {:induction false} IndexAfter(a: Bytes, b: Byte, rest: Bytes)
    requires b !in a
    ensures var s := a + ([b] + rest); IndexOf(s, b) == |a| && s[..|a|] == a && s[|a| + 1..] == rest
    ensures IndexOf(a, b) == |a|
  {
    var s := a + ([b] + rest);
    if a == [] {
      assert s == [b] + rest;
    } else {
      assert s[1..] == a[1..] + ([b] + rest) && s[0] == a[0];
      IndexAfter(a[1..], b, rest);
    }
    assert s[..|a|] == a && s[|a| + 1..] == rest;
  }

  lemma FieldIsOnePiece(field: Field)
    requires PlainName(field.name)
    ensures AMPERSAND !in FieldText(field) && CutPiece(FieldText(field)) == (field.name, Encoded(field.value))
  {
    hide Encoded, IndexOf;
    IndexAfter(field.name, EQUALS, Encoded(field.value));
    NotInJoined(field.name, EQUALS, Encoded(field.value), AMPERSAND);
  }

  lemma NotInJoined(a: Bytes, b: Byte, c: Bytes, x: Byte)
    requires x !in a && x != b && x !in c
    ensures x !in a + ([b] + c)
  {
  }

  lemma {:induction false} ReadFields(fields: seq<Field>, cb: Callback)
    requires fields != [] && forall f :: f in fields ==> PlainName(f.name)
    ensures ReadPieces(Pieces(QueryOf(fields)), cb) == Some(WithFields(cb, fields))
    decreases |fields|
  {
    hide CutPiece, Encoded, Decoded, WithField, FieldText, PlainName;
    var field, query := fields[0], QueryOf(fields);
    var text, after := FieldText(field), WithField(cb, field.name, field.value);
    FieldIsOnePiece(field);
    EncodeThenDecode(field.value);
    if |fields| == 1 {
      IndexAfter(text, AMPERSAND, []);
      assert text[..|text|] == text;
      assert Pieces(query) == [text];
      assert Pieces(query)[1..] == [] && fields[1..] == [];
    } else {
      IndexAfter(text, AMPERSAND, QueryOf(fields[1..]));
      assert Pieces(query) == [text] + Pieces(QueryOf(fields[1..]));
      ReadFields(fields[1..], after);
    }
  }

  function LastValue(fields: seq<Field>, name: Bytes): Option<Bytes>
  {
    if fields == [] then None
    else if fields[|fields| - 1].name == name then Some(fields[|fields| - 1].value)
    else LastValue(fields[..|fields| - 1], name)
  }

  function OrElse(value: Option<Bytes>, otherwise: Bytes): Bytes
  {
    match value
    case Some(v) => v
    case None => otherwise
  }

  lemma {:induction false} OneMoreField(cb: Callback, fields: seq<Field>, last: Field)
    ensures WithFields(cb, fields + [last]) == WithField(WithFields(cb, fields), last.name, last.value)
    decreases |fields|
  {
    hide WithField;
    if fields == [] {
      assert [last][1..] == [] && fields + [last] == [last];
    } else {
      assert (fields + [last])[1..] == fields[1..] + [last];
      OneMoreField(WithField(cb, fields[0].name, fields[0].value), fields[1..], last);
    }
  }

  lemma {:induction false} LastFieldCounts(fields: seq<Field>)
    ensures WithFields(NO_PARAMETERS, fields) ==
            Callback(LastValue(fields, CODE), OrElse(LastValue(fields, STATE), []), LastValue(fields, ERROR))
  {
    if fields != [] {
      var before, last := fields[..|fields| - 1], fields[|fields| - 1];
      LastFieldCounts(before);
      assert fields == before + [last];
      OneMoreField(NO_PARAMETERS, before, last);
    }
  }

  /** A query built from encoded values is read back whole; of several fields with one name the last counts. */
  lemma QueryRoundTrip(fields: seq<Field>)
    requires forall f :: f in fields ==> PlainName(f.name)
    ensures ReadPieces(Pieces(QueryOf(fields)), NO_PARAMETERS) ==
            Some(Callback(LastValue(fields, CODE), OrElse(LastValue(fields, STATE), []), LastValue(fields, ERROR)))
  {
    hide WithField, CutPiece, Encoded, PlainName;
    LastFieldCounts(fields);
    if fields == [] {
      EmptyQuery();
    } else {
      ReadFields(fields, NO_PARAMETERS);
    }
  }

  lemma EmptyQuery()
    ensures ReadPieces(Pieces([]), NO_PARAMETERS) == Some(NO_PARAMETERS)
  {
    assert Pieces([]) == [[]] && CutPiece([]) == ([], []);
    var none: seq<Bytes> := [];
    assert Pieces([])[1..] == none;
  }
}
