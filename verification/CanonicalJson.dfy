/**
 * The canonical JSON text that signatures are computed over. The reference is a decoder for that
 * text and a meaning of values in which objects are maps, so key order carries no information.
 */
module CanonicalJson {
  import opened Wrappers
  import opened TufErrors
  import opened Text
  import opened Sorting

  /** A parsed JSON value; object members are kept in document order. */
  datatype Value =
    | Null
    | Bool(b: bool)
    | Int(n: int)
    | Float(repr: int)
    | Str(s: string)
    | Arr(items: seq<Value>)
    | Obj(fields: seq<Field>)

  datatype Field = Field(key: string, value: Value)

  function Keys(fields: seq<Field>): (keys: seq<string>)
    ensures |keys| == |fields| && forall i :: 0 <= i < |fields| ==> keys[i] == fields[i].key
  {
    seq(|fields|, i requires 0 <= i < |fields| => fields[i].key)
  }

  predicate HasKey(v: Value, key: string)
  {
    v.Obj? && key in Keys(v.fields)
  }

  /** The value of an object member. */
  function Member(v: Value, key: string): (r: Value)
    requires HasKey(v, key)
    ensures r < v && Field(key, r) in v.fields
  {
    MemberIn(v, v.fields, key)
  }

  function MemberIn(v: Value, fields: seq<Field>, key: string): (r: Value)
    requires v.Obj? && key in Keys(fields) && forall f :: f in fields ==> f in v.fields
    ensures r < v && Field(key, r) in fields
  {
    if fields[0].key == key then
      assert fields[0] in v.fields;
      fields[0].value
    else
      assert Keys(fields) == [fields[0].key] + Keys(fields[1..]);
      MemberIn(v, fields[1..], key)
  }

  /** What a JSON map type guarantees: no object has a repeated key. */
  predicate WellFormed(v: Value)
  {
    match v
    case Arr(items) => forall x :: x in items ==> WellFormed(x)
    case Obj(fields) => Distinct(Keys(fields)) && forall f :: f in fields ==> WellFormed(f.value)
    case _ => true
  }

  predicate FloatFree(v: Value)
  {
    match v
    case Float(_) => false
    case Arr(items) => forall x :: x in items ==> FloatFree(x)
    case Obj(fields) => forall f :: f in fields ==> FloatFree(f.value)
    case _ => true
  }

  // ---------- the canonical text ----------

  function EscapedChar(c: char): string
  {
    if c == '\\' then "\\\\" else if c == '"' then "\\\"" else [c]
  }

  function Escaped(s: string): string
  {
    if s == "" then ""
    else EscapedChar(s[0]) + Escaped(s[1..])
  }

  function Quoted(s: string): string
  {
    "\"" + Escaped(s) + "\""
  }

  function IntText(n: int): string
  {
    if n < 0 then "-" + Decimal(-n) else Decimal(n)
  }

  function SortedKeys(v: Value): seq<string>
    requires v.Obj?
  {
    Sort(Keys(v.fields), AtMost)
  }

  /**
   * The canonical text of a value, without insignificant space and with members in key order.
   * A float has none: the printer refuses every value that holds one.
   */
  function CanonicalText(v: Value): string
    decreases v, 1, 0
  {
    match v
    case Null => "null"
    case Bool(b) => if b then "true" else "false"
    case Int(n) => IntText(n)
    case Float(_) => ""
    case Str(s) => Quoted(s)
    case Arr(items) => "[" + ItemsText(items, true) + "]"
    case Obj(_) => "{" + AllMembersText(v) + "}"
  }

  function AllMembersText(v: Value): string
    requires v.Obj?
    decreases v, 0, |v.fields| + 2
  {
    KeysAreMembers(v);
    MembersText(v, SortedKeys(v), true)
  }

  function ItemsText(items: seq<Value>, first: bool): string
    decreases items, 0, 0
  {
    if items == [] then ""
    else (if first then "" else ",") + CanonicalText(items[0]) + ItemsText(items[1..], false)
  }

  function MembersText(v: Value, keys: seq<string>, first: bool): string
    requires v.Obj? && forall k :: k in keys ==> HasKey(v, k)
    decreases v, 0, |keys| + 1
  {
    if keys == [] then "" else MemberText(v, keys[0], first) + MembersText(v, keys[1..], false)
  }

  function MemberText(v: Value, key: string, first: bool): string
    requires HasKey(v, key)
    decreases v, 0, 0
  {
    (if first then "" else ",") + Quoted(key) + ":" + CanonicalText(Member(v, key))
  }

  lemma KeysAreMembers(v: Value)
    requires v.Obj?
    ensures forall k :: k in SortedKeys(v) <==> HasKey(v, k)
  {
    forall k ensures k in SortedKeys(v) <==> HasKey(v, k) {
      SameElements(SortedKeys(v), Keys(v.fields), k);
    }
  }

  // ---------- the printer ----------

  lemma {:induction false} EscapedSnoc(s: string, c: char)
    ensures Escaped(s + [c]) == Escaped(s) + EscapedChar(c)
  {
    if s == "" {
      assert [c][1..] == "";
    } else {
      assert (s + [c])[1..] == s[1..] + [c];
      EscapedSnoc(s[1..], c);
    }
  }

  method CanonicalString(out: string, s: string) returns (text: string)
    ensures text == out + Quoted(s)
  {
    text := out + "\"";
    for i := 0 to |s|
      invariant text == out + ("\"" + Escaped(s[..i]))
    {
      text := text + EscapedChar(s[i]);
      EscapedSnoc(s[..i], s[i]);
      assert s[..i + 1] == s[..i] + [s[i]];
    }
    assert s[..|s|] == s;
    text := text + "\"";
  }

  /** Appends the canonical text to the buffer exactly when the value holds no float. */
  method WriteCanonical(out: string, v: Value) returns (r: Result<string, TufError>)
    requires WellFormed(v)
    ensures r == if FloatFree(v) then Ok(out + CanonicalText(v)) else Err(Malformed)
    decreases v, 1
  {
    match v {
      case Null => r := Ok(out + "null");
      case Bool(b) => r := Ok(out + (if b then "true" else "false"));
      case Int(n) => r := Ok(out + IntText(n));
      case Float(_) => r := Err(Malformed);
      case Str(s) =>
        var text := CanonicalString(out, s);
        r := Ok(text);
      case Arr(items) =>
        r := WriteItems(out + "[", items);
        if r.Ok? {
          r := Ok(r.value + "]");
          assert r.value == out + CanonicalText(v);
        }
      case Obj(_) =>
        KeysAreMembers(v);
        MembersDecide(v);
        r := WriteMembers(out + "{", v, SortedKeys(v));
        if r.Ok? {
          r := Ok(r.value + "}");
          assert r.value == out + CanonicalText(v);
        }
    }
  }

  lemma {:induction false} ItemsTextSnoc(items: seq<Value>, x: Value, first: bool)
    ensures ItemsText(items + [x], first) ==
            ItemsText(items, first) + ((if first && items == [] then "" else ",") + CanonicalText(x))
  {
    if items == [] {
      assert ([x])[1..] == [];
    } else {
      assert (items + [x])[1..] == items[1..] + [x];
      ItemsTextSnoc(items[1..], x, false);
    }
  }

  lemma Associate(a: string, b: string, c: string, d: string)
    ensures a + b + c + d == a + (b + (c + d)) == a + (b + c + d)
  {
  }

  method WriteItems(out: string, items: seq<Value>) returns (r: Result<string, TufError>)
    requires forall x :: x in items ==> WellFormed(x)
    ensures r == if forall x :: x in items ==> FloatFree(x) then Ok(out + ItemsText(items, true)) else Err(Malformed)
    decreases items, 0
  {
    var text := out;
    for i := 0 to |items|
      invariant forall x :: x in items[..i] ==> FloatFree(x)
      invariant text == out + ItemsText(items[..i], true)
    {
      var comma := if i > 0 then "," else "";
      r := WriteCanonical(text + comma, items[i]);
      if r.Err? { return; }
      ItemsTextSnoc(items[..i], items[i], true);
      Associate(out, ItemsText(items[..i], true), comma, CanonicalText(items[i]));
      assert items[..i + 1] == items[..i] + [items[i]];
      text := r.value;
    }
    assert items[..|items|] == items;
    r := Ok(text);
  }

  lemma {:induction false} MembersTextSnoc(v: Value, keys: seq<string>, key: string, first: bool)
    requires v.Obj? && HasKey(v, key) && forall k :: k in keys ==> HasKey(v, k)
    ensures MembersText(v, keys + [key], first) ==
            MembersText(v, keys, first) + MemberText(v, key, first && keys == [])
  {
    if keys == [] {
      assert ([key])[1..] == [];
    } else {
      assert (keys + [key])[1..] == keys[1..] + [key];
      MembersTextSnoc(v, keys[1..], key, false);
    }
  }

  lemma OneMoreMember(v: Value, keys: seq<string>, i: nat, out: string)
    requires v.Obj? && i < |keys| && forall k :: k in keys ==> HasKey(v, k)
    ensures out + MembersText(v, keys[..i], true) + MemberText(v, keys[i], i == 0) ==
            out + MembersText(v, keys[..i + 1], true)
  {
    MembersTextSnoc(v, keys[..i], keys[i], true);
    assert keys[..i + 1] == keys[..i] + [keys[i]];
  }

  lemma FloatFreeMember(v: Value, key: string)
    requires HasKey(v, key) && FloatFree(v)
    ensures FloatFree(Member(v, key))
  {
    assert Field(key, Member(v, key)) in v.fields;
  }

  method WriteMember(out: string, v: Value, key: string, first: bool) returns (r: Result<string, TufError>)
    requires HasKey(v, key) && WellFormed(Member(v, key))
    ensures r == if FloatFree(Member(v, key)) then Ok(out + MemberText(v, key, first)) else Err(Malformed)
    decreases v, 0, 0
  {
    var comma := if first then "" else ",";
    var text := CanonicalString(out + comma, key);
    r := WriteCanonical(text + ":", Member(v, key));
    ghost var c := CanonicalText(Member(v, key));
    Associate(out, comma, Quoted(key), ":" + c);
    assert comma + Quoted(key) + (":" + c) == comma + Quoted(key) + ":" + c;
    assert text + ":" + c == text + (":" + c);
  }

  predicate MembersFloatFree(v: Value, keys: seq<string>)
    requires forall k :: k in keys ==> HasKey(v, k)
  {
    forall k :: k in keys ==> FloatFree(Member(v, k))
  }

  method WriteMembers(out: string, v: Value, keys: seq<string>) returns (r: Result<string, TufError>)
    requires v.Obj? && forall k :: k in keys ==> HasKey(v, k) && WellFormed(Member(v, k))
    ensures r == if MembersFloatFree(v, keys) then Ok(out + MembersText(v, keys, true)) else Err(Malformed)
    decreases v, 0, 1
  {
    var text := out;
    for i := 0 to |keys|
      invariant MembersFloatFree(v, keys[..i])
      invariant text == out + MembersText(v, keys[..i], true)
    {
      r := WriteMember(text, v, keys[i], i == 0);
      if r.Err? { return; }
      OneMoreMember(v, keys, i, out);
      text := r.value;
    }
    assert keys[..|keys|] == keys;
    r := Ok(text);
  }

  lemma MembersDecide(v: Value)
    requires v.Obj? && WellFormed(v)
    ensures forall k :: k in SortedKeys(v) ==> HasKey(v, k) && WellFormed(Member(v, k))
    ensures MembersFloatFree(v, SortedKeys(v)) <==> FloatFree(v)
  {
    KeysAreMembers(v);
    forall k | HasKey(v, k) ensures WellFormed(Member(v, k)) && (FloatFree(v) ==> FloatFree(Member(v, k))) {
      assert Field(k, Member(v, k)) in v.fields;
    }
    forall f | f in v.fields ensures HasKey(v, f.key) && Member(v, f.key) == f.value {
      FieldIsMember(v, f);
    }
  }

  lemma FieldIsMember(v: Value, f: Field)
    requires v.Obj? && Distinct(Keys(v.fields)) && f in v.fields
    ensures HasKey(v, f.key) && Member(v, f.key) == f.value
  {
    var i :| 0 <= i < |v.fields| && v.fields[i] == f;
    assert Keys(v.fields)[i] == f.key;
    var g := Field(f.key, Member(v, f.key));
    var j :| 0 <= j < |v.fields| && v.fields[j] == g;
    assert Keys(v.fields)[j] == f.key;
  }

  // ---------- what is written ----------

  /** Backslashes and quotes are the marks. */
  predicate IsMark(c: char)
  {
    c == '\\' || c == '"'
  }

  /** How many marks a text has. */
  function Marks(s: string): nat
  {
    if s == "" then 0 else Marks(s[..|s| - 1]) + if IsMark(s[|s| - 1]) then 1 else 0
  }

  lemma {:induction false} EscapedLength(s: string)
    ensures |Escaped(s)| == |s| + Marks(s)
  {
    if s != "" {
      var n := |s| - 1;
      EscapedLength(s[..n]);
      EscapedSnoc(s[..n], s[n]);
      assert s == s[..n] + [s[n]];
    }
  }

  /** The place of character `i`, or of the backslash before it. */
  function Place(s: string, i: nat): nat
    requires i <= |s|
  {
    i + Marks(s[..i])
  }

  lemma {:induction false} EscapedAt(s: string, i: nat)
    requires i < |s|
    ensures |Escaped(s)| == |s| + Marks(s) && Place(s, i) + (if IsMark(s[i]) then 1 else 0) < |Escaped(s)|
    ensures if IsMark(s[i]) then Escaped(s)[Place(s, i)] == '\\' && Escaped(s)[Place(s, i) + 1] == s[i]
            else Escaped(s)[Place(s, i)] == s[i]
  {
    var n := |s| - 1;
    EscapedSnoc(s[..n], s[n]);
    assert s == s[..n] + [s[n]];
    EscapedLength(s[..n]);
    EscapedLength(s);
    hide Escaped, Marks;
    if i < n {
      EscapedAt(s[..n], i);
      assert s[..n][..i] == s[..i];
    }
  }

  /**
   * A text is written between quotes, longer by one for each mark: every mark has a backslash before it, and
   * every character stands in its place.
   */
  lemma TextIsWritten(s: string)
    ensures var t := CanonicalText(Str(s));
            && |t| == |s| + Marks(s) + 2 && t[0] == '"' && t[|t| - 1] == '"'
            && forall i :: 0 <= i < |s| ==>
                 Place(s, i) + 3 <= |t| && (IsMark(s[i]) ==> Place(s, i) + 4 <= |t|) &&
                 if IsMark(s[i]) then t[1 + Place(s, i)] == '\\' && t[2 + Place(s, i)] == s[i]
                 else t[1 + Place(s, i)] == s[i]
  {
    EscapedLength(s);
    var e := Escaped(s);
    var t := CanonicalText(Str(s));
    hide Escaped, Marks, Place;
    assert forall k :: 0 <= k < |e| ==> t[1 + k] == e[k];
    forall i | 0 <= i < |s|
      ensures Place(s, i) + 3 <= |t| && (IsMark(s[i]) ==> Place(s, i) + 4 <= |t|) &&
              if IsMark(s[i]) then t[1 + Place(s, i)] == '\\' && t[2 + Place(s, i)] == s[i]
              else t[1 + Place(s, i)] == s[i]
    {
      EscapedAt(s, i);
      assert IsMark(s[i]) ==> t[1 + (Place(s, i) + 1)] == e[Place(s, i) + 1];
    }
  }

  /** A text without marks is written as it is. */
  lemma PlainText(s: string)
    requires forall c :: c in s ==> c != '\\' && c != '"'
    ensures CanonicalText(Str(s)) == "\"" + s + "\""
  {
    NoMarks(s);
    TextIsWritten(s);
    var t := CanonicalText(Str(s));
    forall i | 0 <= i < |s| ensures t[1 + i] == s[i] { NoMarks(s[..i]); }
    assert t == "\"" + s + "\"";
  }

  lemma {:induction false} NoMarks(s: string)
    requires forall c :: c in s ==> !IsMark(c)
    ensures Marks(s) == 0
  {
    if s != "" { NoMarks(s[..|s| - 1]); }
  }

  /** Texts with commas between them. */
  function Joined(texts: seq<string>): string
  {
    if texts == [] then ""
    else if |texts| == 1 then texts[0]
    else Joined(texts[..|texts| - 1]) + "," + texts[|texts| - 1]
  }

  lemma {:induction false} ItemsAreJoined(items: seq<Value>)
    ensures ItemsText(items, true) == Joined(seq(|items|, i requires 0 <= i < |items| => CanonicalText(items[i])))
  {
    hide CanonicalText;
    if items != [] {
      var n := |items| - 1;
      ItemsAreJoined(items[..n]);
      ItemsTextSnoc(items[..n], items[n], true);
      var texts := seq(|items|, i requires 0 <= i < |items| => CanonicalText(items[i]));
      assert items == items[..n] + [items[n]];
      assert texts[..n] == seq(n, i requires 0 <= i < n => CanonicalText(items[..n][i]));
      Associate(ItemsText(items[..n], true), ",", CanonicalText(items[n]), "");
    }
  }

  /** The text of one member. */
  function MemberIsWritten(v: Value, key: string): string
    requires HasKey(v, key)
  {
    CanonicalText(Str(key)) + ":" + CanonicalText(Member(v, key))
  }

  function MembersWritten(v: Value, keys: seq<string>): (texts: seq<string>)
    requires forall k :: k in keys ==> HasKey(v, k)
    ensures |texts| == |keys| && forall i :: 0 <= i < |keys| ==> texts[i] == MemberIsWritten(v, keys[i])
  {
    seq(|keys|, i requires 0 <= i < |keys| => MemberIsWritten(v, keys[i]))
  }

  lemma {:induction false} MembersAreJoined(v: Value, keys: seq<string>)
    requires v.Obj? && forall k :: k in keys ==> HasKey(v, k)
    ensures MembersText(v, keys, true) == Joined(MembersWritten(v, keys))
  {
    if keys != [] {
      var front, key := keys[..|keys| - 1], keys[|keys| - 1];
      assert keys == front + [key];
      MembersAreJoined(v, front);
      WrittenSnoc(v, front, key);
    }
  }

  lemma JoinedSnoc(texts: seq<string>, text: string)
    ensures Joined(texts + [text]) == Joined(texts) + ((if texts == [] then "" else ",") + text)
  {
    assert (texts + [text])[..|texts|] == texts;
    if texts != [] { Associate(Joined(texts), ",", text, ""); }
  }

  lemma WrittenSnoc(v: Value, keys: seq<string>, key: string)
    requires v.Obj? && HasKey(v, key) && forall k :: k in keys ==> HasKey(v, k)
    requires MembersText(v, keys, true) == Joined(MembersWritten(v, keys))
    ensures MembersText(v, keys + [key], true) == Joined(MembersWritten(v, keys + [key]))
  {
    MembersTextSnoc(v, keys, key, true);
    OneMemberText(v, key);
    hide MembersText, MemberText, MemberIsWritten, HasKey, Joined;
    assert MembersWritten(v, keys + [key]) == MembersWritten(v, keys) + [MemberIsWritten(v, key)];
    JoinedSnoc(MembersWritten(v, keys), MemberIsWritten(v, key));
    assert "" + MemberIsWritten(v, key) == MemberIsWritten(v, key);
  }

  lemma OneMemberText(v: Value, key: string)
    requires HasKey(v, key)
    ensures MemberText(v, key, true) == MemberIsWritten(v, key)
    ensures MemberText(v, key, false) == "," + MemberIsWritten(v, key)
  {
    var q, text := Quoted(key), CanonicalText(Member(v, key));
    assert "" + q + ":" + text == q + ":" + text;
    assert "," + q + ":" + text == "," + (q + ":" + text);
  }

  /** Arrays are written in order, with commas and without space. */
  lemma ArrayIsWritten(items: seq<Value>)
    ensures CanonicalText(Arr(items)) ==
            "[" + Joined(seq(|items|, i requires 0 <= i < |items| => CanonicalText(items[i]))) + "]"
  {
    ItemsAreJoined(items);
  }

  /** Objects are written with every member once, in increasing order of the names. */
  lemma ObjectIsWritten(v: Value) returns (keys: seq<string>)
    requires v.Obj? && WellFormed(v)
    ensures forall k :: k in keys <==> exists f :: f in v.fields && f.key == k
    ensures forall i, j :: 0 <= i < j < |keys| ==> Less(keys[i], keys[j])
    ensures forall k :: k in keys ==> HasKey(v, k)
    ensures CanonicalText(v) ==
            "{" + Joined(MembersWritten(v, keys)) + "}"
  {
    keys := SortedKeys(v);
    KeysAreMembers(v);
    SortedKeysDistinct(v);
    AtMostIsTotalOrder();
    SortSorts(Keys(v.fields), AtMost);
    hide CanonicalText, Sort, Less;
    assert forall i, j :: 0 <= i < j < |keys| ==> AtMost(keys[i], keys[j]) && keys[i] != keys[j];
    MembersAreJoined(v, keys);
    MemberNames(v);
    ObjectText(v);
  }

  lemma ObjectText(v: Value)
    requires v.Obj? && forall k :: k in SortedKeys(v) ==> HasKey(v, k)
    ensures CanonicalText(v) == "{" + MembersText(v, SortedKeys(v), true) + "}"
  {
  }

  lemma MemberNames(v: Value)
    requires v.Obj?
    ensures forall k :: HasKey(v, k) <==> exists f :: f in v.fields && f.key == k
  {
    forall k ensures HasKey(v, k) <==> exists f :: f in v.fields && f.key == k {
      if k in Keys(v.fields) {
        var i :| 0 <= i < |v.fields| && Keys(v.fields)[i] == k;
        assert v.fields[i] in v.fields;
      }
      if f :| f in v.fields && f.key == k {
        var i :| 0 <= i < |v.fields| && v.fields[i] == f;
        assert Keys(v.fields)[i] == k;
      }
    }
  }

  lemma ConstantIsWritten(b: bool)
    ensures CanonicalText(Null) == "null" && CanonicalText(Bool(b)) == if b then "true" else "false"
  {
  }

  /** Integers are written in decimal without leading zeros, after a minus sign when negative. */
  lemma IntegerIsWritten(n: int) returns (digits: string)
    ensures CanonicalText(Int(n)) == (if n < 0 then "-" else "") + digits
    ensures IsDecimal(digits, if n < 0 then -n else n)
  {
    digits := Decimal(if n < 0 then -n else n);
  }

  predicate IsDecimal(digits: string, n: nat)
  {
    digits != "" && AllDigits(digits) && (digits[0] == '0' ==> digits == "0") && Number(digits) == n
  }

  // ---------- the decoder ----------

  function DecodeString(t: string): (r: Option<(string, string)>)
    ensures r.Some? ==> |r.value.1| < |t|
  {
    if t == "" then None
    else if t[0] == '"' then Some(("", t[1..]))
    else if t[0] == '\\' then
      if |t| < 2 then None
      else
        var (s, rest) :- DecodeString(t[2..]);
        Some(([t[1]] + s, rest))
    else
      var (s, rest) :- DecodeString(t[1..]);
      Some(([t[0]] + s, rest))
  }

  function DigitSpan(t: string): (n: nat)
    ensures n <= |t| && AllDigits(t[..n])
  {
    if t != "" && IsDigit(t[0]) then
      assert AllDigits(t[1..][..DigitSpan(t[1..])]);
      assert t[..1 + DigitSpan(t[1..])] == [t[0]] + t[1..][..DigitSpan(t[1..])];
      1 + DigitSpan(t[1..])
    else 0
  }

  function DecodeNatural(t: string): (r: Option<(nat, string)>)
    ensures r.Some? ==> |r.value.1| < |t|
  {
    var n := DigitSpan(t);
    if n == 0 then None else Some((Number(t[..n]), t[n..]))
  }

  function DecodeInt(t: string): (r: Option<(Value, string)>)
    ensures r.Some? ==> |r.value.1| < |t|
  {
    if t != "" && t[0] == '-' then
      var (n, rest) :- DecodeNatural(t[1..]);
      Some((Int(-(n as int)), rest))
    else
      var (n, rest) :- DecodeNatural(t);
      Some((Int(n), rest))
  }

  function DecodeValue(t: string): (r: Option<(Value, string)>)
    ensures r.Some? ==> |r.value.1| < |t|
    decreases |t|, 0
  {
    if t == "" then None
    else if "null" <= t then Some((Null, t[4..]))
    else if "true" <= t then Some((Bool(true), t[4..]))
    else if "false" <= t then Some((Bool(false), t[5..]))
    else if t[0] == '"' then
      var (s, rest) :- DecodeString(t[1..]);
      Some((Str(s), rest))
    else if t[0] == '[' then
      var (items, rest) :- DecodeItems(t[1..], true);
      Some((Arr(items), rest))
    else if t[0] == '{' then
      var (fields, rest) :- DecodeFields(t[1..], true);
      Some((Obj(fields), rest))
    else DecodeInt(t)
  }

  function DecodeItems(t: string, first: bool): (r: Option<(seq<Value>, string)>)
    ensures r.Some? ==> |r.value.1| < |t|
    decreases |t|, 1
  {
    if t == "" then None
    else if t[0] == ']' then Some(([], t[1..]))
    else if !first && t[0] != ',' then None
    else
      var (x, rest) :- DecodeValue(if first then t else t[1..]);
      var (xs, end) :- DecodeItems(rest, false);
      Some(([x] + xs, end))
  }

  function DecodeFields(t: string, first: bool): (r: Option<(seq<Field>, string)>)
    ensures r.Some? ==> |r.value.1| < |t|
    decreases |t|, 1
  {
    if t == "" then None
    else if t[0] == '}' then Some(([], t[1..]))
    else
      var (f, rest) :- DecodeField(t, first);
      var (fs, end) :- DecodeFields(rest, false);
      Some(([f] + fs, end))
  }

  function DecodeField(t: string, first: bool): (r: Option<(Field, string)>)
    ensures r.Some? ==> |r.value.1| < |t|
    decreases |t|, 0
  {
    if !first && (t == "" || t[0] != ',') then None
    else
      var u := if first then t else t[1..];
      if u == "" || u[0] != '"' then None
      else
        var (key, colon) :- DecodeString(u[1..]);
        if colon == "" || colon[0] != ':' then None
        else
          var (x, rest) :- DecodeValue(colon[1..]);
          Some((Field(key, x), rest))
  }

  // ---------- decoding recovers the value ----------

  /** The value with every object's members in key order. */
  function InKeyOrder(v: Value): Value
    decreases v, 1, 0
  {
    match v
    case Arr(items) => Arr(ItemsInKeyOrder(items))
    case Obj(_) =>
      KeysAreMembers(v);
      Obj(FieldsInOrder(v, SortedKeys(v)))
    case _ => v
  }

  function ItemsInKeyOrder(items: seq<Value>): seq<Value>
    decreases items, 0, 0
  {
    if items == [] then [] else [InKeyOrder(items[0])] + ItemsInKeyOrder(items[1..])
  }

  function FieldsInOrder(v: Value, keys: seq<string>): (fs: seq<Field>)
    requires v.Obj? && forall k :: k in keys ==> HasKey(v, k)
    decreases v, 0, |keys|
  {
    if keys == [] then []
    else [Field(keys[0], InKeyOrder(Member(v, keys[0])))] + FieldsInOrder(v, keys[1..])
  }

  predicate NoDigitAhead(rest: string)
  {
    rest == "" || !IsDigit(rest[0])
  }

  lemma {:induction false} StringRoundTrip(s: string, rest: string)
    ensures DecodeString(Escaped(s) + "\"" + rest) == Some((s, rest))
  {
    var t := Escaped(s) + "\"" + rest;
    if s == "" {
      assert t == "\"" + rest;
    } else {
      var tail := Escaped(s[1..]) + "\"" + rest;
      assert t == EscapedChar(s[0]) + tail;
      StringRoundTrip(s[1..], rest);
      assert s == [s[0]] + s[1..];
      if s[0] == '\\' || s[0] == '"' {
        assert t[2..] == tail;
      } else {
        assert t[0] == s[0] && t[1..] == tail;
      }
    }
  }

  lemma {:induction false} SpanOfDigits(digits: string, rest: string)
    requires AllDigits(digits) && NoDigitAhead(rest)
    ensures DigitSpan(digits + rest) == |digits|
  {
    if digits == "" {
      assert digits + rest == rest;
    } else {
      assert (digits + rest)[1..] == digits[1..] + rest;
      SpanOfDigits(digits[1..], rest);
    }
  }

  lemma NaturalRoundTrip(digits: string, rest: string)
    requires AllDigits(digits) && digits != "" && NoDigitAhead(rest)
    ensures DecodeNatural(digits + rest) == Some((Number(digits), rest))
  {
    SpanOfDigits(digits, rest);
    assert (digits + rest)[..|digits|] == digits && (digits + rest)[|digits|..] == rest;
  }

  lemma IntRoundTrip(n: int, rest: string)
    requires NoDigitAhead(rest)
    ensures DecodeInt(IntText(n) + rest) == Some((Int(n), rest))
  {
    var digits := Decimal(if n < 0 then -n else n);
    NaturalRoundTrip(digits, rest);
    if n < 0 {
      assert "-" + digits + rest == "-" + (digits + rest);
      assert ("-" + (digits + rest))[1..] == digits + rest;
    } else {
      assert (digits + rest)[0] == digits[0];
    }
  }

  /** No canonical text starts like a closing bracket, and each kind of value starts its own way. */
  lemma TextStart(v: Value)
    requires FloatFree(v)
    ensures CanonicalText(v) != "" && CanonicalText(v)[0] !in {']', '}', ','}
    ensures v.Int? ==> CanonicalText(v)[0] == '-' || IsDigit(CanonicalText(v)[0])
  {
  }

  lemma DecodeConstant(v: Value, rest: string)
    requires v.Null? || v.Bool?
    ensures DecodeValue(CanonicalText(v) + rest) == Some((v, rest))
  {
    var t := CanonicalText(v) + rest;
    if v.Null? {
      assert t[..4] == "null" && t[4..] == rest;
    } else if v.b {
      assert t[0] == 't' && t[..4] == "true" && t[4..] == rest;
    } else {
      assert t[0] == 'f' && t[..5] == "false" && t[5..] == rest;
    }
  }

  lemma DecodeBracketed(body: string)
    ensures DecodeValue("\"" + body) ==
            match DecodeString(body) case None => None case Some((s, rest)) => Some((Str(s), rest))
    ensures DecodeValue("[" + body) ==
            match DecodeItems(body, true) case None => None case Some((xs, rest)) => Some((Arr(xs), rest))
    ensures DecodeValue("{" + body) ==
            match DecodeFields(body, true) case None => None case Some((fs, rest)) => Some((Obj(fs), rest))
  {
    assert ("\"" + body)[1..] == body && ("[" + body)[1..] == body && ("{" + body)[1..] == body;
  }

  lemma DecodeNumber(n: int, rest: string)
    ensures DecodeValue(IntText(n) + rest) == DecodeInt(IntText(n) + rest)
  {
    assert IntText(n)[0] == '-' || IsDigit(IntText(n)[0]);
  }

  lemma Regroup(a: string, b: string, c: string, d: string)
    ensures a + b + c + d == a + (b + c + d) == a + (b + (c + d))
  {
  }

  lemma RegroupFive(a: string, b: string, c: string, d: string, e: string)
    ensures a + b + c + d + e == a + (b + (c + d + e))
  {
  }

  /** The decoder undoes the printer, whatever non-digit text follows. */
  lemma {:induction false} RoundTrip(v: Value, rest: string)
    requires FloatFree(v) && NoDigitAhead(rest)
    ensures DecodeValue(CanonicalText(v) + rest) == Some((InKeyOrder(v), rest))
    decreases v, 1, 0
  {
    match v {
      case Null => DecodeConstant(v, rest);
      case Bool(_) => DecodeConstant(v, rest);
      case Int(n) =>
        DecodeNumber(n, rest);
        IntRoundTrip(n, rest);
      case Str(s) =>
        Regroup("\"", Escaped(s), "\"", rest);
        DecodeBracketed(Escaped(s) + "\"" + rest);
        StringRoundTrip(s, rest);
      case Arr(items) =>
        Regroup("[", ItemsText(items, true), "]", rest);
        DecodeBracketed(ItemsText(items, true) + "]" + rest);
        ItemsRoundTrip(items, true, rest);
      case Obj(_) =>
        KeysAreMembers(v);
        Regroup("{", AllMembersText(v), "}", rest);
        DecodeBracketed(AllMembersText(v) + "}" + rest);
        FieldsRoundTrip(v, SortedKeys(v), true, rest);
    }
  }

  lemma {:induction false} ItemsRoundTrip(items: seq<Value>, first: bool, rest: string)
    requires forall x :: x in items ==> FloatFree(x)
    ensures DecodeItems(ItemsText(items, first) + "]" + rest, first) == Some((ItemsInKeyOrder(items), rest))
    decreases items, 0, 0
  {
    if items == [] {
      assert "" + "]" + rest == "]" + rest;
    } else {
      var tail := ItemsText(items[1..], false) + "]" + rest;
      TailStart(items[1..], rest);
      RoundTrip(items[0], tail);
      ItemsRoundTrip(items[1..], false, rest);
      ItemsTextSplit(items, first, rest);
      TextStart(items[0]);
      DecodeOneItem(CanonicalText(items[0]) + tail, first);
    }
  }

  lemma ItemsTextSplit(items: seq<Value>, first: bool, rest: string)
    requires items != []
    ensures ItemsText(items, first) + "]" + rest ==
            (if first then "" else ",") + (CanonicalText(items[0]) + (ItemsText(items[1..], false) + "]" + rest))
  {
    var comma := if first then "" else ",";
    var text, more := CanonicalText(items[0]), ItemsText(items[1..], false);
    RegroupFive(comma, text, more, "]", rest);
  }

  lemma DecodeOneItem(u: string, first: bool)
    requires u != "" && u[0] != ']'
    ensures var t := (if first then "" else ",") + u;
            DecodeItems(t, first) ==
            match DecodeValue(u)
            case None => None
            case Some((x, rest)) =>
              match DecodeItems(rest, false) case None => None case Some((xs, end)) => Some(([x] + xs, end))
  {
    assert ("" + u) == u && ("," + u)[1..] == u;
  }

  lemma TailStart(items: seq<Value>, rest: string)
    ensures NoDigitAhead(ItemsText(items, false) + "]" + rest)
  {
  }

  lemma MembersTailStart(v: Value, keys: seq<string>, rest: string)
    requires v.Obj? && forall k :: k in keys ==> HasKey(v, k)
    ensures NoDigitAhead(MembersText(v, keys, false) + "}" + rest)
  {
  }

  lemma {:induction false} FieldsRoundTrip(v: Value, keys: seq<string>, first: bool, rest: string)
    requires v.Obj? && FloatFree(v) && forall k :: k in keys ==> HasKey(v, k)
    ensures DecodeFields(MembersText(v, keys, first) + "}" + rest, first) == Some((FieldsInOrder(v, keys), rest))
    decreases v, 0, |keys| + 1
  {
    var t := MembersText(v, keys, first) + "}" + rest;
    if keys == [] {
      assert t == "}" + rest;
    } else {
      var tail := MembersText(v, keys[1..], false) + "}" + rest;
      assert t == MemberText(v, keys[0], first) + tail;
      MembersTailStart(v, keys[1..], rest);
      FieldRoundTrip(v, keys[0], first, tail);
      FieldsRoundTrip(v, keys[1..], false, rest);
    }
  }

  lemma {:induction false} FieldRoundTrip(v: Value, key: string, first: bool, rest: string)
    requires HasKey(v, key) && FloatFree(v) && NoDigitAhead(rest)
    ensures DecodeField(MemberText(v, key, first) + rest, first) == Some((Field(key, InKeyOrder(Member(v, key))), rest))
    ensures MemberText(v, key, first) != "" && MemberText(v, key, first)[0] != '}'
    decreases v, 0, 0
  {
    FloatFreeMember(v, key);
    RoundTrip(Member(v, key), rest);
    MemberTextSplit(v, key, first, rest);
    DecodeOneField(key, CanonicalText(Member(v, key)) + rest, first);
  }

  lemma MemberTextSplit(v: Value, key: string, first: bool, rest: string)
    requires HasKey(v, key)
    ensures MemberText(v, key, first) + rest ==
            (if first then "" else ",") + (Quoted(key) + (":" + (CanonicalText(Member(v, key)) + rest)))
    ensures MemberText(v, key, first) != "" && MemberText(v, key, first)[0] != '}'
  {
    var comma := if first then "" else ",";
    var q, text := Quoted(key), CanonicalText(Member(v, key));
    assert comma + q + ":" + text + rest == comma + (q + (":" + (text + rest)));
    assert (comma + q + ":" + text)[0] == (comma + q)[0];
  }

  lemma DecodeOneField(key: string, value: string, first: bool)
    ensures var t := (if first then "" else ",") + (Quoted(key) + (":" + value));
            DecodeField(t, first) ==
            match DecodeValue(value) case None => None case Some((x, rest)) => Some((Field(key, x), rest))
  {
    FieldPieces(key, value, first);
    StringRoundTrip(key, ":" + value);
    assert (":" + value)[1..] == value;
  }

  lemma FieldPieces(key: string, value: string, first: bool)
    ensures var u := Quoted(key) + (":" + value);
            var t := (if first then "" else ",") + u;
            (if first then t else t[1..]) == u && (first || t[0] == ',') &&
            u != "" && u[0] == '"' && u[1..] == Escaped(key) + "\"" + (":" + value)
  {
    var u := Quoted(key) + (":" + value);
    Regroup("\"", Escaped(key), "\"", ":" + value);
    assert "" + u == u && ("," + u)[1..] == u;
  }

  // ---------- the meaning of a value ----------

  /** What a value says: objects are maps, so the order of members is gone. */
  datatype Meaning =
    | MNull
    | MBool(b: bool)
    | MInt(n: int)
    | MFloat(repr: int)
    | MStr(s: string)
    | MArr(items: seq<Meaning>)
    | MObj(members: map<string, Meaning>)

  function MeaningOf(v: Value): Meaning
    decreases v
  {
    match v
    case Null => MNull
    case Bool(b) => MBool(b)
    case Int(n) => MInt(n)
    case Float(r) => MFloat(r)
    case Str(s) => MStr(s)
    case Arr(items) => MArr(seq(|items|, i requires 0 <= i < |items| => MeaningOf(items[i])))
    case Obj(fields) => MObj(map k | k in Keys(fields) :: MeaningOf(Member(v, k)))
  }

  lemma {:induction false} ReorderingKeepsMeaning(v: Value)
    requires WellFormed(v)
    ensures WellFormed(InKeyOrder(v)) && MeaningOf(InKeyOrder(v)) == MeaningOf(v)
    decreases v, 1, 0
  {
    match v {
      case Arr(items) =>
        ReorderedItems(items);
      case Obj(fields) =>
        KeysAreMembers(v);
        ReorderedFields(v, SortedKeys(v));
        ReorderedObject(v, InKeyOrder(v));
      case _ =>
    }
  }

  lemma ReorderedObject(v: Value, w: Value)
    requires v.Obj? && w.Obj? && Distinct(Keys(v.fields)) && Keys(w.fields) == SortedKeys(v)
    requires forall f :: f in w.fields ==>
               HasKey(v, f.key) && WellFormed(f.value) && MeaningOf(f.value) == MeaningOf(Member(v, f.key))
    ensures WellFormed(w) && MeaningOf(w) == MeaningOf(v)
  {
    SortedKeysDistinct(v);
    KeysAreMembers(v);
    forall k | HasKey(v, k) ensures HasKey(w, k) && MeaningOf(Member(w, k)) == MeaningOf(Member(v, k)) {
      assert k in Keys(w.fields);
      assert Field(k, Member(w, k)) in w.fields;
    }
    assert forall k :: k in Keys(w.fields) <==> k in Keys(v.fields);
  }

  lemma {:induction false} ReorderedItems(items: seq<Value>)
    requires forall x :: x in items ==> WellFormed(x)
    ensures var r := ItemsInKeyOrder(items);
            |r| == |items| && forall i :: 0 <= i < |r| ==> WellFormed(r[i]) && MeaningOf(r[i]) == MeaningOf(items[i])
    decreases items, 0, 0
  {
    if items != [] {
      ReorderingKeepsMeaning(items[0]);
      ReorderedItems(items[1..]);
    }
  }

  lemma {:induction false} ReorderedFields(v: Value, keys: seq<string>)
    requires v.Obj? && WellFormed(v) && forall k :: k in keys ==> HasKey(v, k)
    ensures var r := FieldsInOrder(v, keys);
            |r| == |keys| &&
            forall i :: 0 <= i < |r| ==>
              r[i].key == keys[i] && WellFormed(r[i].value) && MeaningOf(r[i].value) == MeaningOf(Member(v, keys[i]))
    decreases v, 0, |keys|
  {
    if keys != [] {
      assert Field(keys[0], Member(v, keys[0])) in v.fields;
      ReorderingKeepsMeaning(Member(v, keys[0]));
      ReorderedFields(v, keys[1..]);
    }
  }

  lemma SortedKeysDistinct(v: Value)
    requires v.Obj? && Distinct(Keys(v.fields))
    ensures Distinct(SortedKeys(v))
  {
    DistinctPermutation(Keys(v.fields), SortedKeys(v));
  }

  // ---------- the text decides the value, and only the value ----------

  lemma SortedKeysDependOnKeySet(v: Value, w: Value)
    requires v.Obj? && w.Obj? && Distinct(Keys(v.fields)) && Distinct(Keys(w.fields))
    requires forall k :: HasKey(v, k) <==> HasKey(w, k)
    ensures SortedKeys(v) == SortedKeys(w)
  {
    var a, b := Keys(v.fields), Keys(w.fields);
    forall x ensures multiset(a)[x] == multiset(b)[x] {
      DistinctCount(a, x);
      DistinctCount(b, x);
      assert HasKey(v, x) <==> HasKey(w, x);
      assert x in multiset(a) <==> x in a;
      assert x in multiset(b) <==> x in b;
    }
    assert multiset(a) == multiset(b);
    AtMostIsTotalOrder();
    SortSorts(a, AtMost);
    SortSorts(b, AtMost);
    SortedUnique(Sort(a, AtMost), Sort(b, AtMost), AtMost);
  }

  lemma AtMostIsTotalOrder()
    ensures TotalPreorder(AtMost) && Antisymmetric(AtMost)
  {
    forall x, y ensures AtMost(x, y) || AtMost(y, x) { LessTotal(x, y); }
    forall x, y, z | AtMost(x, y) && AtMost(y, z) ensures AtMost(x, z) {
      if Less(x, y) && Less(y, z) { LessTransitive(x, y, z); }
    }
    forall x, y | AtMost(x, y) && AtMost(y, x) ensures x == y {
      if Less(x, y) && Less(y, x) {
        LessTransitive(x, y, x);
        LessIrreflexive(x);
      }
    }
  }

  lemma {:induction false} SameMeaningSameText(v: Value, w: Value)
    requires WellFormed(v) && WellFormed(w) && MeaningOf(v) == MeaningOf(w)
    ensures CanonicalText(v) == CanonicalText(w)
    decreases v, 1, 0
  {
    match v {
      case Arr(items) =>
        assert |items| == |w.items|;
        forall i | 0 <= i < |items| ensures MeaningOf(items[i]) == MeaningOf(w.items[i]) {
          assert MeaningOf(v).items[i] == MeaningOf(w).items[i];
        }
        SameItemsSameText(items, w.items, true);
      case Obj(_) =>
        forall k ensures HasKey(v, k) <==> HasKey(w, k) {
          assert HasKey(v, k) <==> k in MeaningOf(v).members;
          assert HasKey(w, k) <==> k in MeaningOf(w).members;
        }
        forall k | HasKey(v, k) ensures MeaningOf(Member(v, k)) == MeaningOf(Member(w, k)) {
          assert MeaningOf(v).members[k] == MeaningOf(w).members[k];
        }
        SortedKeysDependOnKeySet(v, w);
        KeysAreMembers(v);
        SameMembersSameText(v, w, SortedKeys(v), true);
      case _ =>
    }
  }

  lemma {:induction false} SameItemsSameText(a: seq<Value>, b: seq<Value>, first: bool)
    requires |a| == |b| && forall i :: 0 <= i < |a| ==> MeaningOf(a[i]) == MeaningOf(b[i])
    requires (forall x :: x in a ==> WellFormed(x)) && (forall x :: x in b ==> WellFormed(x))
    ensures ItemsText(a, first) == ItemsText(b, first)
    decreases a, 0, 0
  {
    if a != [] {
      SameMeaningSameText(a[0], b[0]);
      SameItemsSameText(a[1..], b[1..], false);
    }
  }

  lemma {:induction false} SameMembersSameText(v: Value, w: Value, keys: seq<string>, first: bool)
    requires v.Obj? && w.Obj? && WellFormed(v) && WellFormed(w)
    requires forall k :: k in keys ==>
                           HasKey(v, k) && HasKey(w, k) && MeaningOf(Member(v, k)) == MeaningOf(Member(w, k))
    ensures MembersText(v, keys, first) == MembersText(w, keys, first)
    decreases v, 0, |keys|
  {
    if keys != [] {
      var k := keys[0];
      assert Field(k, Member(v, k)) in v.fields && Field(k, Member(w, k)) in w.fields;
      SameMeaningSameText(Member(v, k), Member(w, k));
      SameMembersSameText(v, w, keys[1..], false);
    }
  }

  /** Two printable values have the same canonical text exactly when they mean the same. */
  lemma CanonicalTextIsUnambiguous(v: Value, w: Value)
    requires WellFormed(v) && WellFormed(w) && FloatFree(v) && FloatFree(w)
    ensures CanonicalText(v) == CanonicalText(w) <==> MeaningOf(v) == MeaningOf(w)
  {
    if MeaningOf(v) == MeaningOf(w) {
      SameMeaningSameText(v, w);
    }
    if CanonicalText(v) == CanonicalText(w) {
      RoundTrip(v, "");
      RoundTrip(w, "");
      ReorderingKeepsMeaning(v);
      ReorderingKeepsMeaning(w);
    }
  }
}
