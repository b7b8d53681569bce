/**
 * Quoting of shortcut arguments for Windows. The reference is the parser a Windows program applies
 * to its command line: blanks separate, quotes group, and backslashes matter only before a quote.
 */
module CommandLine {

  function Slashes(n: nat): (s: string)
    ensures |s| == n && forall i :: 0 <= i < n ==> s[i] == '\\'
  {
    seq(n, _ => '\\')
  }

  predicate IsBlank(c: char)
  {
    c == ' ' || c == '\t'
  }

  // ---------- the quoting ----------

  predicate NeedsQuotes(arg: string)
  {
    ' ' in arg || '"' in arg || '\t' in arg
  }

  /** The text between the quotes, when `pending` backslashes have just been written. */
  function Body(arg: string, pending: nat): string
  {
    if arg == "" then Slashes(pending)
    else if arg[0] == '\\' then "\\" + Body(arg[1..], pending + 1)
    else if arg[0] == '"' then Slashes(pending + 1) + "\"" + Body(arg[1..], 0)
    else [arg[0]] + Body(arg[1..], 0)
  }

  function Quoted(arg: string): string
  {
    if arg == "" then "\"\""
    else if !NeedsQuotes(arg) then arg
    else "\"" + Body(arg, 0) + "\""
  }

  method QuoteArg(arg: string) returns (text: string)
    ensures text == Quoted(arg)
  {
    if arg == "" { return "\"\""; }
    if ' ' !in arg && '"' !in arg && '\t' !in arg { return arg; }
    var out := "\"";
    var backslashes := 0;
    for i := 0 to |arg|
      invariant out + Body(arg[i..], backslashes) == "\"" + Body(arg, 0)
    {
      BodyStep(arg, i, backslashes);
      ghost var before := out;
      match arg[i] {
        case '\\' =>
          backslashes := backslashes + 1;
          out := out + "\\";
        case '"' =>
          for k := 0 to backslashes + 1
            invariant out == before + Slashes(k)
          {
            out := out + "\\";
            assert Slashes(k + 1) == Slashes(k) + "\\";
          }
          out := out + "\"";
          assert out == before + (Slashes(backslashes + 1) + "\"");
          backslashes := 0;
        case c =>
          backslashes := 0;
          out := out + [c];
      }
      Regroup(before, out[|before|..], Body(arg[i + 1..], backslashes));
      assert out == before + out[|before|..];
    }
    ghost var before := out;
    for k := 0 to backslashes
      invariant out == before + Slashes(k)
    {
      out := out + "\\";
      assert Slashes(k + 1) == Slashes(k) + "\\";
    }
    assert Body(arg[|arg|..], backslashes) == Slashes(backslashes);
    return out + "\"";
  }

  lemma BodyStep(arg: string, i: nat, pending: nat)
    requires i < |arg|
    ensures Body(arg[i..], pending) ==
            if arg[i] == '\\' then "\\" + Body(arg[i + 1..], pending + 1)
            else if arg[i] == '"' then Slashes(pending + 1) + "\"" + Body(arg[i + 1..], 0)
            else [arg[i]] + Body(arg[i + 1..], 0)
  {
    assert arg[i..][1..] == arg[i + 1..];
  }

  lemma Regroup(a: string, b: string, c: string)
    ensures a + b + c == a + (b + c)
  {
  }

  function ArgumentsString(args: seq<string>): string
  {
    if args == [] then ""
    else if |args| == 1 then Quoted(args[0])
    else Quoted(args[0]) + " " + ArgumentsString(args[1..])
  }

  // ---------- the Windows parser ----------

  function LeadingSlashes(s: string): (n: nat)
    ensures n <= |s| && (forall i :: 0 <= i < n ==> s[i] == '\\') && (n < |s| ==> s[n] != '\\')
  {
    if s != "" && s[0] == '\\' then 1 + LeadingSlashes(s[1..]) else 0
  }

  /**
   * The next piece of an argument: what it adds, how much text it uses, and whether the text after
   * it is inside quotes. `doubled` chooses between the two readings of a doubled quote inside quotes.
   */
  function Token(s: string, inQuotes: bool, doubled: bool): (r: (string, nat, bool))
    requires s != ""
    ensures 0 < r.1 <= |s|
  {
    var n := LeadingSlashes(s);
    if n > 0 then
      if n < |s| && s[n] == '"' then
        if n % 2 == 1 then (Slashes(n / 2) + "\"", n + 1, inQuotes) else (Slashes(n / 2), n, inQuotes)
      else (Slashes(n), n, inQuotes)
    else if s[0] == '"' then
      if inQuotes && doubled && |s| > 1 && s[1] == '"' then ("\"", 2, inQuotes) else ("", 1, !inQuotes)
    else ([s[0]], 1, inQuotes)
  }

  /** Reads one argument: it ends at the end of the text or at a blank outside quotes. */
  function ParseArg(s: string, inQuotes: bool, doubled: bool): (r: (string, string))
    ensures |r.1| <= |s|
    ensures r.1 == s ==> s == "" || (!inQuotes && IsBlank(s[0]))
    decreases |s|
  {
    if s == "" || (!inQuotes && IsBlank(s[0])) then ("", s)
    else
      var (piece, used, quotes) := Token(s, inQuotes, doubled);
      var (arg, rest) := ParseArg(s[used..], quotes, doubled);
      (piece + arg, rest)
  }

  function ParseArgs(s: string, doubled: bool): seq<string>
    decreases |s|
  {
    if s == "" then []
    else if IsBlank(s[0]) then ParseArgs(s[1..], doubled)
    else
      var (arg, rest) := ParseArg(s, false, doubled);
      [arg] + ParseArgs(rest, doubled)
  }

  /** A command line reaches the parser as a C string. */
  function CString(s: string): string
  {
    if s == "" || s[0] == '\0' then "" else [s[0]] + CString(s[1..])
  }

  predicate NulFree(s: string)
  {
    '\0' !in s
  }

  // ---------- round trip ----------

  predicate EndsHere(rest: string)
  {
    rest == "" || IsBlank(rest[0])
  }

  lemma {:induction false} LeadingOfSlashes(n: nat, tail: string)
    requires tail == "" || tail[0] != '\\'
    ensures LeadingSlashes(Slashes(n) + tail) == n
  {
    if n > 0 {
      assert (Slashes(n) + tail)[1..] == Slashes(n - 1) + tail;
      LeadingOfSlashes(n - 1, tail);
    } else {
      assert Slashes(0) + tail == tail;
    }
  }

  /** Inside quotes, the parser undoes the escaping, up to the closing quote. */
  lemma {:induction false} BodyRoundTrip(arg: string, pending: nat, rest: string, doubled: bool)
    requires EndsHere(rest)
    ensures ParseArg(Slashes(pending) + Body(arg, pending) + "\"" + rest, true, doubled)
         == (Slashes(pending) + arg, rest)
    decreases |arg|
  {
    hide ParseArg, Body;
    BodyShape(arg, pending, rest);
    if arg == "" {
      CloseQuote(pending, rest, doubled);
      assert Slashes(pending) + "" == Slashes(pending);
    } else if arg[0] == '\\' {
      BodyRoundTrip(arg[1..], pending + 1, rest, doubled);
      assert Slashes(pending) + arg == Slashes(pending + 1) + arg[1..];
    } else {
      BodyRoundTrip(arg[1..], 0, rest, doubled);
      assert Slashes(0) + arg[1..] == arg[1..];
      if arg[0] == '"' {
        EscapedQuote(pending, Slashes(0) + Body(arg[1..], 0) + "\"" + rest, true, doubled);
        assert Slashes(pending) + "\"" + arg[1..] == Slashes(pending) + arg;
      } else {
        PlainChar(pending, arg[0], Slashes(0) + Body(arg[1..], 0) + "\"" + rest, true, doubled);
        assert Slashes(pending) + ([arg[0]] + arg[1..]) == Slashes(pending) + arg;
      }
    }
  }

  /** How the escaped text of an argument splits at its first character. */
  lemma BodyShape(arg: string, pending: nat, rest: string)
    ensures var s := Slashes(pending) + Body(arg, pending) + "\"" + rest;
            if arg == "" then s == Slashes(2 * pending) + ("\"" + rest)
            else if arg[0] == '\\' then s == Slashes(pending + 1) + Body(arg[1..], pending + 1) + "\"" + rest
            else
              var tail := Slashes(0) + Body(arg[1..], 0) + "\"" + rest;
              if arg[0] == '"' then s == Slashes(2 * pending + 1) + ("\"" + tail)
              else s == Slashes(pending) + ([arg[0]] + tail)
  {
    if arg != "" {
      var more := Body(arg[1..], if arg[0] == '\\' then pending + 1 else 0);
      assert Slashes(0) + more == more;
      if arg[0] == '\\' {
        hide Slashes;
        SlashShape(pending, more);
      } else if arg[0] == '"' {
        hide Slashes;
        QuoteShape(pending, more, rest);
      } else {
        hide Slashes;
        PlainShape(Slashes(pending), arg[0], more, rest);
      }
    } else {
      EndShape(pending, rest);
    }
  }

  lemma EndShape(n: nat, rest: string)
    ensures Slashes(n) + Slashes(n) + "\"" + rest == Slashes(2 * n) + ("\"" + rest)
  {
    assert Slashes(n) + Slashes(n) == Slashes(2 * n);
  }

  lemma SlashShape(n: nat, more: string)
    ensures Slashes(n) + ("\\" + more) == Slashes(n + 1) + more
  {
    assert Slashes(n) + "\\" == Slashes(n + 1);
  }

  lemma QuoteShape(n: nat, more: string, rest: string)
    ensures Slashes(n) + (Slashes(n + 1) + "\"" + more) + "\"" + rest ==
            Slashes(2 * n + 1) + ("\"" + (more + "\"" + rest))
  {
    assert Slashes(n) + Slashes(n + 1) == Slashes(2 * n + 1);
    ShiftIn(Slashes(n), Slashes(n + 1), "\"" + more, "\"" + rest);
    Regroup(Slashes(n + 1), "\"", more);
    PlainShape("", '"', more, rest);
  }

  lemma PlainShape(a: string, c: char, more: string, rest: string)
    ensures a + ([c] + more) + "\"" + rest == a + ([c] + (more + "\"" + rest))
  {
  }

  lemma ShiftIn(a: string, b: string, c: string, d: string)
    ensures a + (b + c) + d == (a + b) + (c + d)
  {
  }

  lemma TokenOfSlashes(n: nat, tail: string, inQuotes: bool, doubled: bool)
    requires n > 0 && (tail == "" || tail[0] != '\\')
    ensures Token(Slashes(n) + tail, inQuotes, doubled) ==
            if tail != "" && tail[0] == '"' then
              if n % 2 == 1 then (Slashes(n / 2) + "\"", n + 1, inQuotes) else (Slashes(n / 2), n, inQuotes)
            else (Slashes(n), n, inQuotes)
  {
    LeadingOfSlashes(n, tail);
  }

  /** `n` backslashes not followed by a quote stand for themselves; followed by one, `2n` stand for `n`. */
  lemma ParseSlashes(n: nat, tail: string, inQuotes: bool, doubled: bool)
    requires tail == "" || tail[0] != '\\'
    ensures var r := ParseArg(tail, inQuotes, doubled);
            (tail == "" || tail[0] != '"' ==>
               ParseArg(Slashes(n) + tail, inQuotes, doubled) == (Slashes(n) + r.0, r.1)) &&
            (tail != "" && tail[0] == '"' ==>
               ParseArg(Slashes(2 * n) + tail, inQuotes, doubled) == (Slashes(n) + r.0, r.1))
  {
    hide Token;
    if n == 0 {
      assert Slashes(0) + tail == tail;
      assert Slashes(0) + ParseArg(tail, inQuotes, doubled).0 == ParseArg(tail, inQuotes, doubled).0;
    } else {
      TokenOfSlashes(n, tail, inQuotes, doubled);
      TokenOfSlashes(2 * n, tail, inQuotes, doubled);
      assert (Slashes(n) + tail)[n..] == tail && (Slashes(2 * n) + tail)[2 * n..] == tail;
    }
  }

  lemma CloseQuote(n: nat, rest: string, doubled: bool)
    requires EndsHere(rest)
    ensures ParseArg(Slashes(2 * n) + ("\"" + rest), true, doubled) == (Slashes(n), rest)
  {
    ParseSlashes(n, "\"" + rest, true, doubled);
    assert ("\"" + rest)[1..] == rest;
    assert Token("\"" + rest, true, doubled) == ("", 1, false);
    assert ParseArg(rest, false, doubled) == ("", rest);
    assert Slashes(n) + ("" + "") == Slashes(n);
  }

  lemma EscapedQuote(n: nat, tail: string, inQuotes: bool, doubled: bool)
    ensures var r := ParseArg(tail, inQuotes, doubled);
            ParseArg(Slashes(2 * n + 1) + ("\"" + tail), inQuotes, doubled) == (Slashes(n) + "\"" + r.0, r.1)
  {
    hide Token;
    TokenOfSlashes(2 * n + 1, "\"" + tail, inQuotes, doubled);
    assert (Slashes(2 * n + 1) + ("\"" + tail))[2 * n + 2..] == tail && (2 * n + 1) / 2 == n;
  }

  lemma PlainChar(n: nat, c: char, tail: string, inQuotes: bool, doubled: bool)
    requires c != '\\' && c != '"' && (inQuotes || !IsBlank(c))
    ensures var r := ParseArg(tail, inQuotes, doubled);
            ParseArg(Slashes(n) + ([c] + tail), inQuotes, doubled) == (Slashes(n) + ([c] + r.0), r.1)
  {
    ParseSlashes(n, [c] + tail, inQuotes, doubled);
    assert Token([c] + tail, inQuotes, doubled) == ([c], 1, inQuotes);
    assert ([c] + tail)[1..] == tail;
  }

  lemma {:induction false} UnquotedRoundTrip(arg: string, rest: string, doubled: bool)
    requires !NeedsQuotes(arg) && EndsHere(rest)
    ensures ParseArg(arg + rest, false, doubled) == (arg, rest)
    decreases |arg|
  {
    hide ParseArg;
    var n := LeadingSlashes(arg);
    if n == |arg| {
      assert arg == Slashes(n);
      OnlySlashes(n, rest, doubled);
    } else {
      var c, tail := arg[n], arg[n + 1..];
      assert arg == Slashes(n) + ([c] + tail);
      assert c in arg && forall d :: d in tail ==> d in arg;
      UnquotedRoundTrip(tail, rest, doubled);
      assert arg + rest == Slashes(n) + ([c] + (tail + rest));
      PlainChar(n, c, tail + rest, false, doubled);
    }
  }

  lemma OnlySlashes(n: nat, rest: string, doubled: bool)
    requires EndsHere(rest)
    ensures ParseArg(Slashes(n) + rest, false, doubled) == (Slashes(n), rest)
  {
    ParseSlashes(n, rest, false, doubled);
    assert Slashes(n) + "" == Slashes(n);
  }

  /** One quoted argument, followed by the end or a blank, is read back whole. */
  lemma QuotedRoundTrip(arg: string, rest: string, doubled: bool)
    requires EndsHere(rest)
    ensures ParseArg(Quoted(arg) + rest, false, doubled) == (arg, rest)
    ensures Quoted(arg) != "" && !IsBlank(Quoted(arg)[0])
  {
    hide ParseArg, Body;
    if arg != "" && !NeedsQuotes(arg) {
      UnquotedRoundTrip(arg, rest, doubled);
      assert arg[0] in arg;
    } else {
      QuotedIsBody(arg);
      var s := Quoted(arg) + rest;
      var inner := Slashes(0) + Body(arg, 0) + "\"" + rest;
      assert s == "\"" + inner;
      OpenQuote(inner, doubled);
      BodyRoundTrip(arg, 0, rest, doubled);
      assert Slashes(0) + arg == arg;
    }
  }

  lemma QuotedIsBody(arg: string)
    requires arg == "" || NeedsQuotes(arg)
    ensures Quoted(arg) == "\"" + (Slashes(0) + Body(arg, 0) + "\"")
  {
    assert Slashes(0) + Body(arg, 0) == Body(arg, 0);
  }

  lemma OpenQuote(inner: string, doubled: bool)
    ensures ParseArg("\"" + inner, false, doubled) == ParseArg(inner, true, doubled)
  {
    assert ("\"" + inner)[1..] == inner && Token("\"" + inner, false, doubled) == ("", 1, true);
    assert "" + ParseArg(inner, true, doubled).0 == ParseArg(inner, true, doubled).0;
  }

  lemma ParseOne(arg: string, rest: string, doubled: bool)
    requires EndsHere(rest)
    ensures ParseArgs(Quoted(arg) + rest, doubled) == [arg] + ParseArgs(rest, doubled)
  {
    hide ParseArg, Quoted;
    QuotedRoundTrip(arg, rest, doubled);
    var s := Quoted(arg) + rest;
    assert s[0] == Quoted(arg)[0];
  }

  lemma SkipBlank(rest: string, doubled: bool)
    ensures ParseArgs(" " + rest, doubled) == ParseArgs(rest, doubled)
  {
    assert (" " + rest)[1..] == rest;
  }

  lemma {:induction false} ArgumentsParseBack(args: seq<string>, doubled: bool)
    ensures ParseArgs(ArgumentsString(args), doubled) == args
  {
    hide ParseArgs, Quoted;
    if args == [] {
      ParseNothing(doubled);
    } else {
      assert args == [args[0]] + args[1..];
      if |args| == 1 {
        assert Quoted(args[0]) + "" == Quoted(args[0]);
        ParseOne(args[0], "", doubled);
        ParseNothing(doubled);
      } else {
        var tail := ArgumentsString(args[1..]);
        Regroup(Quoted(args[0]), " ", tail);
        ParseOne(args[0], " " + tail, doubled);
        SkipBlank(tail, doubled);
        ArgumentsParseBack(args[1..], doubled);
      }
    }
  }

  lemma ParseNothing(doubled: bool)
    ensures ParseArgs("", doubled) == []
  {
  }

  lemma {:induction false} CStringWhole(s: string)
    ensures NulFree(CString(s)) && (NulFree(s) ==> CString(s) == s)
  {
    if s != "" && s[0] != '\0' {
      CStringWhole(s[1..]);
      assert s == [s[0]] + s[1..];
    }
  }

  lemma {:induction false} BodyNulFree(arg: string, pending: nat)
    requires NulFree(arg)
    ensures NulFree(Body(arg, pending))
  {
    if arg != "" {
      assert arg == [arg[0]] + arg[1..];
      BodyNulFree(arg[1..], if arg[0] == '\\' then pending + 1 else 0);
    }
  }

  lemma {:induction false} ArgumentsNulFree(args: seq<string>)
    requires forall a :: a in args ==> NulFree(a)
    ensures NulFree(ArgumentsString(args))
  {
    if args != [] {
      hide Body;
      BodyNulFree(args[0], 0);
      ArgumentsNulFree(args[1..]);
    }
  }

  lemma {:induction false} ParsedNulFree(s: string, inQuotes: bool, doubled: bool)
    requires NulFree(s)
    ensures var r := ParseArg(s, inQuotes, doubled); NulFree(r.0) && NulFree(r.1)
    decreases |s|
  {
    if s != "" && (inQuotes || !IsBlank(s[0])) {
      hide Token;
      var (piece, used, quotes) := Token(s, inQuotes, doubled);
      PieceNulFree(s, inQuotes, doubled);
      ParsedNulFree(s[used..], quotes, doubled);
    }
  }

  lemma PieceNulFree(s: string, inQuotes: bool, doubled: bool)
    requires s != "" && NulFree(s)
    ensures NulFree(Token(s, inQuotes, doubled).0) && NulFree(s[Token(s, inQuotes, doubled).1..])
  {
    assert s[0] in s;
  }

  lemma {:induction false} ParsedListNulFree(s: string, doubled: bool)
    requires NulFree(s)
    ensures forall a :: a in ParseArgs(s, doubled) ==> NulFree(a)
    decreases |s|
  {
    if s != "" {
      if IsBlank(s[0]) {
        ParsedListNulFree(s[1..], doubled);
      } else {
        ParsedNulFree(s, false, doubled);
        ParsedListNulFree(ParseArg(s, false, doubled).1, doubled);
      }
    }
  }

  /** The arguments stand in order with one space between them. */
  lemma {:induction false} ArgumentsAreJoined(args: seq<string>, last: string)
    ensures ArgumentsString(args + [last]) ==
            if args == [] then Quoted(last) else ArgumentsString(args) + " " + Quoted(last)
  {
    hide Quoted;
    if args != [] {
      assert (args + [last])[1..] == args[1..] + [last];
      ArgumentsAreJoined(args[1..], last);
      if |args| > 1 {
        Regroup(Quoted(args[0]) + " ", ArgumentsString(args[1..]), " " + Quoted(last));
        Regroup(ArgumentsString(args[1..]), " ", Quoted(last));
        Regroup(ArgumentsString(args), " ", Quoted(last));
      }
    }
  }

  // ---------- no more quoting than needed ----------

  /** One for each quote, and one for each backslash of a run that a quote or the end follows. */
  function Extra(s: string): nat
    decreases |s|
  {
    var n := LeadingSlashes(s);
    if n == |s| then n
    else (if s[n] == '"' then n + 1 else 0) + Extra(s[n + 1..])
  }

  lemma LeadingPlus(n: nat, c: char, rest: string)
    requires c != '\\'
    ensures LeadingSlashes(Slashes(n) + ([c] + rest)) == n
    ensures Extra(Slashes(n) + ([c] + rest)) == (if c == '"' then n + 1 else 0) + Extra(rest)
  {
    var s := Slashes(n) + ([c] + rest);
    LeadingOfSlashes(n, [c] + rest);
    assert s[n] == c && s[n + 1..] == rest;
  }

  lemma {:induction false} BodyLength(arg: string, pending: nat)
    ensures |Body(arg, pending)| == |arg| + Extra(Slashes(pending) + arg)
  {
    if arg == "" {
      LeadingOfSlashes(pending, "");
      assert Slashes(pending) + "" == Slashes(pending);
    } else {
      var c, rest := arg[0], arg[1..];
      assert arg == [c] + rest;
      if c == '\\' {
        BodyLength(rest, pending + 1);
        assert Slashes(pending) + arg == Slashes(pending + 1) + rest;
      } else {
        BodyLength(rest, 0);
        LeadingPlus(pending, c, rest);
        assert Slashes(0) + rest == rest;
      }
    }
  }

  /**
   * An argument without blanks and quotes is left as it is; any other stands between quotes and grows by one
   * character for each quote and for each backslash before a quote or the end.
   */
  lemma QuotingIsSpare(arg: string)
    ensures arg != "" && (forall c :: c in arg ==> c != ' ' && c != '\t' && c != '"') ==> Quoted(arg) == arg
    ensures arg == "" || (exists c :: c in arg && (c == ' ' || c == '\t' || c == '"')) ==>
              |Quoted(arg)| == |arg| + 2 + Extra(arg) && Quoted(arg)[0] == '"' && Quoted(arg)[|Quoted(arg)| - 1] == '"'
  {
    BodyLength(arg, 0);
    assert Slashes(0) + arg == arg;
    hide Body;
  }

  /**
   * A Windows program that receives the quoted line reads back exactly the list that was quoted, under
   * either reading of doubled quotes, if and only if no argument contains a NUL character.
   */
  lemma ArgumentsRoundTrip(args: seq<string>, doubled: bool)
    ensures ParseArgs(CString(ArgumentsString(args)), doubled) == args <==> forall a :: a in args ==> NulFree(a)
  {
    hide ParseArgs, ArgumentsString;
    CStringWhole(ArgumentsString(args));
    ParsedListNulFree(CString(ArgumentsString(args)), doubled);
    if forall a :: a in args ==> NulFree(a) {
      ArgumentsNulFree(args);
      ArgumentsParseBack(args, doubled);
    }
  }
}
