/**
 * Checks on the literal of a `name = lit` item: the string accessor, the
 * "must be a string" check with its diagnostic, and parsing a string literal
 * as an expression path.
 */
module Lits {
  import opened Wrappers
  import opened Syntax
  import opened Symbols
  import opened Accumulators

  /** `LitExt::to_string`: the text of a string literal; no diagnostic either way. */
  function ToString(lit: Lit): (r: Option<string>)
    ensures r.Some? <==> lit.Str?
    ensures r.Some? ==> r.value == lit.value
  {
    match lit
    case Str(s) => Some(s)
    case OtherLit(_) => None
  }

  function NotStringMessage(aname: Symbol, mname: Symbol): string {
    "expected redis " + Display(aname) + " attribute to be a string: `" + Display(mname) + " = \"...\"`"
  }

  /** `LitExt::to_lit_str_0`: accepts a string literal, and reports anything else once. */
  function ToLitStr0(lit: Lit, ctx: Ctx, aname: Symbol, mname: Symbol): (r: (Result<string, ()>, Ctx))
    ensures r.0.Ok? <==> lit.Str?
    ensures r.0.Ok? ==> r.0.value == lit.value && r.1 == ctx
    ensures r.0.Err? ==> r.1 == ctx + [NotStringMessage(aname, mname)]
  {
    if lit.Str? then (Ok(lit.value), ctx) else (Err(()), ctx + [NotStringMessage(aname, mname)])
  }

  /** `LitExt::to_lit_str`: the same check, naming the keyword twice in the message. */
  function ToLitStr(lit: Lit, ctx: Ctx, name: Symbol): (r: (Result<string, ()>, Ctx))
    ensures r.0.Ok? <==> lit.Str?
    ensures r.0.Ok? ==> r.0.value == lit.value && r.1 == ctx
    ensures r.0.Err? ==> r.1 == ctx + [NotStringMessage(name, name)]
  {
    ToLitStr0(lit, ctx, name, name)
  }

  // ---------------------------------------------------------------------------
  // `{:?}` of a string, as used in the parse-failure message
  // ---------------------------------------------------------------------------

  /** The lower-case hexadecimal digit of `d`. */
  function HexDigit(d: nat): char
    requires d < 16
  {
    "0123456789abcdef"[d]
  }

  /** The value of a lower-case hexadecimal digit, or None. */
  function HexDigitValue(c: char): (r: Option<nat>)
    ensures r.Some? ==> r.value < 16 && HexDigit(r.value) == c
  {
    if '0' <= c <= '9' then Some(c as int - '0' as int)
    else if 'a' <= c <= 'f' then Some(c as int - 'a' as int + 10)
    else None
  }

  /** `n` in lower-case hexadecimal, without leading zeros. */
  function Hex(n: nat): (r: string)
    ensures 1 <= |r|
    ensures forall i :: 0 <= i < |r| ==> HexDigitValue(r[i]).Some?
    decreases n
  {
    if n < 16 then [HexDigit(n)] else Hex(n / 16) + [HexDigit(n % 16)]
  }

  /** The number a string of hexadecimal digits spells, or None when some character is not one. */
  function HexValue(h: string): (r: Option<nat>)
    decreases |h|
  {
    if |h| == 0 then Some(0)
    else match (HexValue(h[..|h| - 1]), HexDigitValue(h[|h| - 1]))
      case (Some(hi), Some(lo)) => Some(16 * hi + lo)
      case _ => None
  }

  /** A digit reads back as its value. */
  lemma HexDigitRoundTrip(d: nat)
    requires d < 16
    ensures HexDigitValue(HexDigit(d)) == Some(d)
  {
  }

  /** Hexadecimal digits read back as the number they were written from. */
  lemma {:induction false} HexValueOfHex(n: nat)
    ensures HexValue(Hex(n)) == Some(n)
    decreases n
  {
    var h := Hex(n);
    if n < 16 {
      HexDigitRoundTrip(n);
      assert h[..|h| - 1] == [];
      assert HexValue(h) == Some(16 * 0 + n);
    } else {
      HexValueOfHex(n / 16);
      HexDigitRoundTrip(n % 16);
      assert h[..|h| - 1] == Hex(n / 16);
      assert h[|h| - 1] == HexDigit(n % 16);
      assert HexValue(h) == Some(16 * (n / 16) + n % 16);
    }
  }

  /** A number below 256 takes at most two hexadecimal digits. */
  lemma HexOfByte(n: nat)
    requires n < 256
    ensures |Hex(n)| <= 2
  {
    if n >= 16 { assert n / 16 < 16; }
  }

  /**
   * The characters `{:?}` writes as `\u{..}`, as far as modelled: the C0
   * controls without a short escape, DEL and the C1 controls.
   */
  predicate EscapedAsUnicode(c: char) {
    && c != '\0' && c != '\t' && c != '\n' && c != '\r'
    && (c as int < 0x20 || 0x7f <= c as int <= 0x9f)
  }

  /** `char::escape_debug` as `str`'s `{:?}` uses it. */
  function EscapeChar(c: char): string {
    if c == '"' then "\\\""
    else if c == '\\' then "\\\\"
    else if c == '\n' then "\\n"
    else if c == '\r' then "\\r"
    else if c == '\t' then "\\t"
    else if c == '\0' then "\\0"
    else if EscapedAsUnicode(c) then "\\u{" + Hex(c as int) + "}"
    else [c]
  }

  function Escape(s: string): string
    decreases |s|
  {
    if |s| == 0 then "" else EscapeChar(s[0]) + Escape(s[1..])
  }

  /** The position of the first `}` in `e` at or after `from`, or `|e|` when there is none. */
  function CloseBrace(e: string, from: nat): (r: nat)
    requires from <= |e|
    ensures from <= r <= |e|
    ensures forall i :: from <= i < r ==> e[i] != '}'
    ensures r < |e| ==> e[r] == '}'
    decreases |e| - from
  {
    if from == |e| || e[from] == '}' then from else CloseBrace(e, from + 1)
  }

  /** The character of a `\u{..}` escape: one to six hexadecimal digits naming a Unicode scalar value. */
  function UnicodeEscape(digits: string): Option<char> {
    if |digits| < 1 || 6 < |digits| then None
    else match HexValue(digits)
      case None => None
      case Some(v) => if v < 0xD800 || 0xE000 <= v < 0x11_0000 then Some(v as char) else None
  }

  /** Reads escaped text back; None on a dangling or unknown escape or a bare quote. */
  function Unescape(e: string): Option<string>
    decreases |e|
  {
    if |e| == 0 then Some("")
    else if e[0] == '"' then None
    else if e[0] != '\\' then
      match Unescape(e[1..])
      case None => None
      case Some(rest) => Some([e[0]] + rest)
    else if |e| < 2 then None
    else if e[1] == 'u' then
      if |e| < 3 || e[2] != '{' then None
      else
        var close := CloseBrace(e, 3);
        if close == |e| then None
        else match UnicodeEscape(e[3..close])
          case None => None
          case Some(ch) =>
            match Unescape(e[close + 1..])
            case None => None
            case Some(rest) => Some([ch] + rest)
    else
      var c :=
        if e[1] == '"' then Some('"')
        else if e[1] == '\\' then Some('\\')
        else if e[1] == 'n' then Some('\n')
        else if e[1] == 'r' then Some('\r')
        else if e[1] == 't' then Some('\t')
        else if e[1] == '0' then Some('\0')
        else None;
      match c
      case None => None
      case Some(ch) =>
        match Unescape(e[2..])
        case None => None
        case Some(rest) => Some([ch] + rest)
  }

  /**
   * `format!("{:?}", s)`: the text between double quotes, each character
   * escaped as `char::escape_debug` does; the text inside the quotes reads
   * back as `s`.
   */
  function DebugString(s: string): (r: string)
    ensures |r| >= |s| + 2
    ensures r[0] == '"' && r[|r| - 1] == '"'
    ensures Unescape(r[1..|r| - 1]) == Some(s)
  {
    EscapeLength(s);
    UnescapeEscape(s);
    var r := "\"" + Escape(s) + "\"";
    assert r[1..|r| - 1] == Escape(s);
    r
  }

  lemma {:induction false} EscapeLength(s: string)
    ensures |Escape(s)| >= |s|
    decreases |s|
  {
    if |s| > 0 { EscapeLength(s[1..]); }
  }

  /** A character escaped as `\u{..}` is written as its one or two hexadecimal digits, which name it back. */
  lemma UnicodeEscapeOf(c: char)
    requires EscapedAsUnicode(c)
    ensures EscapeChar(c) == "\\u{" + Hex(c as int) + "}"
    ensures |Hex(c as int)| <= 2
    ensures UnicodeEscape(Hex(c as int)) == Some(c)
  {
    HexValueOfHex(c as int);
    HexOfByte(c as int);
  }

  /** In `\u{h}t` with `h` free of braces, the escape closes right after `h` and `t` follows it. */
  lemma BracedLayout(h: string, t: string)
    requires 1 <= |h| && forall i :: 0 <= i < |h| ==> h[i] != '}'
    ensures var e := "\\u{" + h + "}" + t;
      && 3 + |h| < |e| && e[0] == '\\' && e[1] == 'u' && e[2] == '{'
      && CloseBrace(e, 3) == 3 + |h| && e[3..3 + |h|] == h && e[3 + |h| + 1..] == t
  {
    var e := "\\u{" + h + "}" + t;
    assert e[3..3 + |h|] == h;
    assert e[3 + |h|] == '}';
    assert e[3 + |h| + 1..] == t;
    CloseBraceAt(e, 3, 3 + |h|);
  }

  /** A `\u{..}` escape reads back as its character. */
  lemma UnescapeUnicode(c: char, t: string, u: string)
    requires EscapedAsUnicode(c) && Unescape(t) == Some(u)
    ensures Unescape(EscapeChar(c) + t) == Some([c] + u)
  {
    var h := Hex(c as int);
    UnicodeEscapeOf(c);
    assert forall i :: 0 <= i < |h| ==> h[i] != '}' by {
      forall i | 0 <= i < |h| ensures h[i] != '}' {
        assert HexDigitValue(h[i]).Some?;
      }
    }
    BracedLayout(h, t);
    UnescapeBraced("\\u{" + h + "}" + t, 3 + |h|, c, u);
  }

  /** Unescaping text that starts with a complete `\u{..}` escape. */
  lemma UnescapeBraced(e: string, close: nat, ch: char, u: string)
    requires 3 <= close < |e| && e[0] == '\\' && e[1] == 'u' && e[2] == '{' && CloseBrace(e, 3) == close
    requires UnicodeEscape(e[3..close]) == Some(ch) && Unescape(e[close + 1..]) == Some(u)
    ensures Unescape(e) == Some([ch] + u)
  {
  }

  /** The first `}` from `from` on is at `at` when `at` holds one and nothing before it does. */
  lemma {:induction false} CloseBraceAt(e: string, from: nat, at: nat)
    requires from <= at < |e| && e[at] == '}'
    requires forall i :: from <= i < at ==> e[i] != '}'
    ensures CloseBrace(e, from) == at
    decreases at - from
  {
    if from < at { CloseBraceAt(e, from + 1, at); }
  }

  lemma UnescapeStep(c: char, t: string, u: string)
    requires Unescape(t) == Some(u)
    ensures Unescape(EscapeChar(c) + t) == Some([c] + u)
  {
    var e := EscapeChar(c) + t;
    if EscapedAsUnicode(c) {
      UnescapeUnicode(c, t, u);
    } else if |EscapeChar(c)| == 1 {
      assert e[0] == c && e[1..] == t;
    } else {
      assert e[0] == '\\' && e[2..] == t;
    }
  }

  /** The text inside the quotes of a `{:?}` rendering determines the string: unescaping gives it back. */
  lemma {:induction false} UnescapeEscape(s: string)
    ensures Unescape(Escape(s)) == Some(s)
    decreases |s|
  {
    if |s| > 0 {
      UnescapeEscape(s[1..]);
      UnescapeStep(s[0], Escape(s[1..]), s[1..]);
      assert [s[0]] + s[1..] == s;
    }
  }

  /** `"a\u{7}"` renders as `"a\u{7}"`: BEL is written as its code point. */
  lemma BellEscaped()
    ensures DebugString("a\U{7}") == "\"a\\u{7}\""
  {
    assert Escape("a\U{7}") == EscapeChar('a') + EscapeChar('\U{7}') + Escape("");
  }

  function ParseFailureMessage(s: string): string {
    "failed to parse: " + DebugString(s)
  }

  /**
   * `LitExt::to_type`: the literal must be a string (checked first, before
   * any parsing), and its text must parse; `parses` stands for the parser.
   */
  function ToType(parses: string -> bool, lit: Lit, ctx: Ctx, name: Symbol): (r: (Result<string, ()>, Ctx))
    ensures !lit.Str? ==> r.0.Err? && r.1 == ctx + [NotStringMessage(name, name)]
    ensures lit.Str? ==> (r.0.Ok? <==> parses(lit.value))
    ensures lit.Str? && r.0.Ok? ==> r.0.value == lit.value && r.1 == ctx
    ensures lit.Str? && r.0.Err? ==> r.1 == ctx + [ParseFailureMessage(lit.value)]
  {
    var (s, c) := ToLitStr(lit, ctx, name);
    match s
    case Err(_) => (Err(()), c)
    case Ok(text) =>
      if parses(text) then (Ok(text), c) else (Err(()), c + [ParseFailureMessage(text)])
  }
}
