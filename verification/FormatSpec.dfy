/** Format strings: how one is split into tokens, what each token prints, and which argument it takes. */
module FormatSpec {
  import Powers = Bits

  const SPEC_KEPT := 27
  const UINT64 := 0x1_0000_0000_0000_0000

  type Int64 = i: int | -0x8000_0000_0000_0000 <= i < 0x8000_0000_0000_0000

  datatype Any = IntArg(i: Int64) | FloatArg(f: real) | StringArg(s: string) | BoolArg(b: bool)

  /** The C library: snprintf of an integer and of a float under a conversion specification, the casts of a
      float to the 64-bit types, and the length prefix of the PRI macros. */
  datatype Libc = Libc(ints: (string, int) -> string, floats: (string, real) -> string,
                       toInt64: real -> Int64, toUint64: real -> int, prefix: string)

  // ---------- Scanning one verb ----------

  predicate IsFlag(c: char) { c == '-' || c == '+' || c == '0' || c == ' ' || c == '#' }

  predicate IsDigit(c: char) { '0' <= c <= '9' }

  function FlagsEnd(f: string, i: nat): (e: nat)
    requires i <= |f|
    ensures i <= e <= |f|
    decreases |f| - i
  {
    if i < |f| && IsFlag(f[i]) then FlagsEnd(f, i + 1) else i
  }

  function DigitsEnd(f: string, i: nat): (e: nat)
    requires i <= |f|
    ensures i <= e <= |f|
    decreases |f| - i
  {
    if i < |f| && IsDigit(f[i]) then DigitsEnd(f, i + 1) else i
  }

  /** Where the flags, width and precision that follow a percent sign end. */
  function SpecEnd(f: string): (e: nat)
    ensures e <= |f|
  {
    var w := DigitsEnd(f, FlagsEnd(f, 0));
    if w < |f| && f[w] == '.' then DigitsEnd(f, w + 1) else w
  }

  /** The conversion specification collected so far: a percent sign and at most 27 characters. */
  function Kept(f: string, e: nat): (s: string)
    requires e <= |f|
    ensures |s| <= SPEC_KEPT + 1
  {
    "%" + if e <= SPEC_KEPT then f[..e] else f[..SPEC_KEPT]
  }

  // ---------- Printing one argument ----------

  function DefaultText(c: Libc, a: Any): string {
    match a
    case IntArg(i) => c.ints("%" + c.prefix + "d", i)
    case FloatArg(x) => c.floats("%g", x)
    case StringArg(s) => s
    case BoolArg(b) => BoolText(b)
  }

  function BoolText(b: bool): string { if b then "true" else "false" }

  function AsInt(c: Libc, a: Any): int {
    match a
    case IntArg(i) => i
    case FloatArg(x) => c.toInt64(x)
    case _ => 0
  }

  function AsFloat(a: Any): real {
    match a
    case IntArg(i) => i as real
    case FloatArg(x) => x
    case _ => 0.0
  }

  function AsUnsigned(c: Libc, a: Any): nat {
    match a
    case IntArg(i) => i % UINT64
    case FloatArg(x) => c.toUint64(x) % UINT64
    case _ => 0
  }

  function Digit(b: nat): char { if b % 2 == 1 then '1' else '0' }

  /** Binary digits, most significant first; nothing for 0. */
  function BitText(v: nat): string {
    if v == 0 then "" else BitText(v / 2) + [Digit(v)]
  }

  function Binary(v: nat): string { if v == 0 then "0" else BitText(v) }

  function Number(s: string): nat
    requires forall i :: 0 <= i < |s| ==> IsDigit(s[i])
  {
    if s == "" then 0
    else
      assert IsDigit(s[|s| - 1]);
      10 * Number(s[..|s| - 1]) + (s[|s| - 1] as int - '0' as int)
  }

  function DigitRun(s: string, i: nat): (e: nat)
    requires i <= |s|
    ensures i <= e <= |s| && forall k :: i <= k < e ==> IsDigit(s[k])
    decreases |s| - i
  {
    if i < |s| && IsDigit(s[i]) then DigitRun(s, i + 1) else i
  }

  /** Left alignment and width as %s reads them back from the specification. */
  function Alignment(spec: string): (bool, nat)
    requires |spec| >= 1
  {
    var left := |spec| > 1 && spec[1] == '-';
    var from := if left then 2 else 1;
    (left, Number(spec[from..DigitRun(spec, from)]))
  }

  function Spaces(n: nat): string { seq(n, _ => ' ') }

  function Padded(s: string, left: bool, width: nat): string {
    if width <= |s| then s else if left then s + Spaces(width - |s|) else Spaces(width - |s|) + s
  }

  /** One byte for a 7-bit code, nothing for any other. */
  function CharText(code: int): string { if 0 <= code <= 127 then [code as char] else "" }

  function VerbText(c: Libc, spec: string, verb: char, a: Any): string
    requires |spec| >= 1
  {
    match verb
    case 'v' => DefaultText(c, a)
    case 'd' => c.ints(spec + c.prefix + "d", if a.BoolArg? then (if a.b then 1 else 0) else AsInt(c, a))
    case 's' =>
      if a.StringArg? then (var (left, width) := Alignment(spec); Padded(a.s, left, width)) else DefaultText(c, a)
    case 'f' => c.floats(spec + "f", AsFloat(a))
    case 'e' => c.floats(spec + "e", AsFloat(a))
    case 'g' => c.floats(spec + "g", AsFloat(a))
    case 't' => BoolText((a.BoolArg? && a.b) || (a.IntArg? && a.i != 0))
    case 'x' => c.ints(spec + c.prefix + "x", AsInt(c, a))
    case 'o' => c.ints(spec + c.prefix + "o", AsInt(c, a))
    case 'b' => Binary(AsUnsigned(c, a))
    case 'c' => CharText(if a.IntArg? then a.i else 0)
    case _ => "%!" + [verb] + "(BAD)"
  }

  // ---------- Output of the whole string ----------

  /** What one verb prints, given that k arguments have been consumed: the text, the characters consumed after
      the percent sign, and the arguments consumed afterwards. */
  function OneVerb(c: Libc, f: string, args: seq<Any>, k: nat): (r: (string, nat, nat))
    ensures r.1 <= |f|
    ensures k <= |args| ==> k <= r.2 <= |args|
  {
    var e := SpecEnd(f);
    if e == |f| then ("%!(NOVERB)", e, k)
    else if f[e] == '%' then ("%", e + 1, k)
    else if k >= |args| then ("%!(MISSING)", e + 1, k)
    else (VerbText(c, Kept(f, e), f[e], args[k]), e + 1, k + 1)
  }

  function Extras(c: Libc, args: seq<Any>, k: nat): string
    requires k <= |args|
    decreases |args| - k
  {
    if k == |args| then "" else "%!(EXTRA " + DefaultText(c, args[k]) + ")" + Extras(c, args, k + 1)
  }

  /** The output from position i on, with k arguments consumed. */
  function FormatFrom(c: Libc, fmt: string, args: seq<Any>, i: nat, k: nat): string
    requires i <= |fmt| && k <= |args|
    decreases |fmt| - i
  {
    if i == |fmt| then Extras(c, args, k)
    else if fmt[i] == '%' then
      var (text, n, k') := OneVerb(c, fmt[i + 1..], args, k);
      text + FormatFrom(c, fmt, args, i + 1 + n, k')
    else [fmt[i]] + FormatFrom(c, fmt, args, i + 1, k)
  }

  function Format(c: Libc, fmt: string, args: seq<Any>): string { FormatFrom(c, fmt, args, 0, 0) }

  // ---------- Doubled percent signs ----------

  function Escape(s: string): string {
    if s == "" then "" else (if s[0] == '%' then "%%" else [s[0]]) + Escape(s[1..])
  }

  lemma {:induction false} EscapedFrom(c: Libc, before: string, s: string)
    ensures FormatFrom(c, before + Escape(s), [], |before|, 0) == s
    decreases s
  {
    var fmt := before + Escape(s);
    if s != "" {
      var first := if s[0] == '%' then "%%" else [s[0]];
      assert fmt == (before + first) + Escape(s[1..]);
      EscapedFrom(c, before + first, s[1..]);
      assert fmt[|before|] == s[0];
      if s[0] == '%' {
        var f := fmt[|before| + 1..];
        assert f[0] == '%' && SpecEnd(f) == 0;
        assert OneVerb(c, f, [], 0) == ("%", 1, 0);
      }
      assert s == [s[0]] + s[1..];
    }
  }

  /** Formatting a string with every percent sign doubled, and no arguments, gives the string back. */
  lemma EscapeRoundTrip(c: Libc, s: string)
    ensures Format(c, Escape(s), []) == s
  {
    EscapedFrom(c, "", s);
    assert "" + Escape(s) == Escape(s);
  }

  // ---------- Every argument is accounted for ----------

  /** A format string, read without its arguments. */
  datatype Token = Literal(c: char) | Percent | NoVerb | Verb(spec: string, verb: char)

  function Tokens(fmt: string, i: nat): seq<Token>
    requires i <= |fmt|
    decreases |fmt| - i
  {
    if i == |fmt| then []
    else if fmt[i] != '%' then [Literal(fmt[i])] + Tokens(fmt, i + 1)
    else [VerbToken(fmt[i + 1..])] + Tokens(fmt, i + 1 + VerbLength(fmt[i + 1..]))
  }

  /** The token that follows a percent sign, and its length. */
  function VerbToken(f: string): Token {
    var e := SpecEnd(f);
    if e == |f| then NoVerb else if f[e] == '%' then Percent else Verb(Kept(f, e), f[e])
  }

  function VerbLength(f: string): (n: nat)
    ensures n <= |f|
  {
    if SpecEnd(f) == |f| then |f| else SpecEnd(f) + 1
  }

  function Verbs(ts: seq<Token>): nat {
    if ts == [] then 0 else (if ts[0].Verb? then 1 else 0) + Verbs(ts[1..])
  }

  /** A piece of output and, when it prints an argument, which one. */
  datatype Piece = Text(s: string) | Missing | Printed(arg: nat, s: string) | Extra(arg: nat, s: string)

  function PieceText(p: Piece): string {
    match p
    case Text(s) => s
    case Missing => "%!(MISSING)"
    case Printed(_, s) => s
    case Extra(_, s) => "%!(EXTRA " + s + ")"
  }

  function Join(ps: seq<Piece>): string {
    if ps == [] then "" else PieceText(ps[0]) + Join(ps[1..])
  }

  function TokenPiece(c: Libc, t: Token, args: seq<Any>, k: nat): Piece {
    match t
    case Literal(x) => Text([x])
    case Percent => Text("%")
    case NoVerb => Text("%!(NOVERB)")
    case Verb(spec, verb) =>
      if k < |args| && |spec| >= 1 then Printed(k, VerbText(c, spec, verb, args[k])) else Missing
  }

  function ExtraPieces(c: Libc, args: seq<Any>, k: nat): seq<Piece>
    requires k <= |args|
    decreases |args| - k
  {
    if k == |args| then [] else [Extra(k, DefaultText(c, args[k]))] + ExtraPieces(c, args, k + 1)
  }

  /** The output as pieces: the n-th verb takes the n-th argument while there is one; what is left is extra. */
  function Pieces(c: Libc, ts: seq<Token>, args: seq<Any>, k: nat): seq<Piece>
    requires k <= |args|
  {
    if ts == [] then ExtraPieces(c, args, k)
    else [TokenPiece(c, ts[0], args, k)] + Pieces(c, ts[1..], args, if ts[0].Verb? && k < |args| then k + 1 else k)
  }

  lemma {:induction false} JoinExtras(c: Libc, args: seq<Any>, k: nat)
    requires k <= |args|
    ensures Join(ExtraPieces(c, args, k)) == Extras(c, args, k)
    decreases |args| - k
  {
    if k < |args| { JoinExtras(c, args, k + 1); }
  }

  lemma VerbIsPiece(c: Libc, f: string, args: seq<Any>, k: nat)
    requires k <= |args|
    ensures OneVerb(c, f, args, k) ==
      (PieceText(TokenPiece(c, VerbToken(f), args, k)), VerbLength(f),
       if VerbToken(f).Verb? && k < |args| then k + 1 else k)
  {
    hide VerbText, DefaultText;
  }

  lemma PiecesFirst(c: Libc, t: Token, ts: seq<Token>, args: seq<Any>, k: nat)
    requires k <= |args|
    ensures Join(Pieces(c, [t] + ts, args, k))
      == PieceText(TokenPiece(c, t, args, k)) + Join(Pieces(c, ts, args, if t.Verb? && k < |args| then k + 1 else k))
  {
    hide TokenPiece, PieceText;
    assert ([t] + ts)[1..] == ts;
    var rest := Pieces(c, ts, args, if t.Verb? && k < |args| then k + 1 else k);
    assert ([TokenPiece(c, t, args, k)] + rest)[1..] == rest;
  }

  /** The scanner's output is the joined pieces of the token sequence. */
  lemma {:induction false} FormatIsPieces(c: Libc, fmt: string, args: seq<Any>, i: nat, k: nat)
    requires i <= |fmt| && k <= |args|
    ensures FormatFrom(c, fmt, args, i, k) == Join(Pieces(c, Tokens(fmt, i), args, k))
    decreases |fmt| - i
  {
    hide OneVerb, Join, VerbToken, VerbLength, VerbText;
    if i == |fmt| {
      JoinExtras(c, args, k);
    } else if fmt[i] != '%' {
      FormatIsPieces(c, fmt, args, i + 1, k);
      PiecesFirst(c, Literal(fmt[i]), Tokens(fmt, i + 1), args, k);
    } else {
      var f := fmt[i + 1..];
      VerbIsPiece(c, f, args, k);
      FormatIsPieces(c, fmt, args, i + 1 + VerbLength(f), OneVerb(c, f, args, k).2);
      PiecesFirst(c, VerbToken(f), Tokens(fmt, i + 1 + VerbLength(f)), args, k);
    }
  }

  /** The arguments the pieces print, as verbs and as extras. */
  function PrintedArgs(ps: seq<Piece>): seq<nat> {
    if ps == [] then [] else (if ps[0].Printed? then [ps[0].arg] else []) + PrintedArgs(ps[1..])
  }

  function ExtraArgs(ps: seq<Piece>): seq<nat> {
    if ps == [] then [] else (if ps[0].Extra? then [ps[0].arg] else []) + ExtraArgs(ps[1..])
  }

  function MissingCount(ps: seq<Piece>): nat {
    if ps == [] then 0 else (if ps[0].Missing? then 1 else 0) + MissingCount(ps[1..])
  }

  function FromTo(a: nat, b: nat): seq<nat>
    decreases b - a
  {
    if a >= b then [] else [a] + FromTo(a + 1, b)
  }

  function Min(a: nat, b: nat): nat { if a < b then a else b }

  lemma {:induction false} ExtrasAccounted(c: Libc, args: seq<Any>, k: nat)
    requires k <= |args|
    ensures var ps := ExtraPieces(c, args, k);
      PrintedArgs(ps) == [] && ExtraArgs(ps) == FromTo(k, |args|) && MissingCount(ps) == 0
    decreases |args| - k
  {
    if k < |args| { ExtrasAccounted(c, args, k + 1); }
  }

  predicate SpecsOk(ts: seq<Token>) { forall i :: 0 <= i < |ts| && ts[i].Verb? ==> |ts[i].spec| >= 1 }

  lemma {:induction false} TokensHaveSpecs(fmt: string, i: nat)
    requires i <= |fmt|
    ensures SpecsOk(Tokens(fmt, i))
    decreases |fmt| - i
  {
    if i < |fmt| {
      TokensHaveSpecs(fmt, if fmt[i] == '%' then i + 1 + VerbLength(fmt[i + 1..]) else i + 1);
    }
  }

  lemma {:induction false} PiecesAccounted(c: Libc, ts: seq<Token>, args: seq<Any>, k: nat)
    requires k <= |args| && SpecsOk(ts)
    ensures var ps := Pieces(c, ts, args, k); var used := Min(k + Verbs(ts), |args|);
      && PrintedArgs(ps) == FromTo(k, used) && ExtraArgs(ps) == FromTo(used, |args|)
      && MissingCount(ps) == k + Verbs(ts) - used
  {
    hide VerbText, DefaultText;
    if ts == [] {
      ExtrasAccounted(c, args, k);
    } else {
      var k' := if ts[0].Verb? && k < |args| then k + 1 else k;
      PiecesAccounted(c, ts[1..], args, k');
      var rest := Pieces(c, ts[1..], args, k');
      FirstAccounted(TokenPiece(c, ts[0], args, k), rest);
      hide Pieces, PrintedArgs, ExtraArgs, MissingCount;
      assert Pieces(c, ts, args, k) == [TokenPiece(c, ts[0], args, k)] + rest by { PiecesFirstIs(c, ts, args, k); }
    }
  }

  lemma PiecesFirstIs(c: Libc, ts: seq<Token>, args: seq<Any>, k: nat)
    requires k <= |args| && ts != []
    ensures Pieces(c, ts, args, k)
      == [TokenPiece(c, ts[0], args, k)] + Pieces(c, ts[1..], args, if ts[0].Verb? && k < |args| then k + 1 else k)
  {
    hide TokenPiece;
  }

  lemma FirstAccounted(p: Piece, ps: seq<Piece>)
    ensures PrintedArgs([p] + ps) == (if p.Printed? then [p.arg] else []) + PrintedArgs(ps)
    ensures ExtraArgs([p] + ps) == (if p.Extra? then [p.arg] else []) + ExtraArgs(ps)
    ensures MissingCount([p] + ps) == (if p.Missing? then 1 else 0) + MissingCount(ps)
  {
    assert ([p] + ps)[1..] == ps;
  }

  /** For every format string and argument list: the output is a sequence of pieces in which the verbs print
      the arguments 0, 1, ... in order, once each; verbs without an argument print MISSING, max(0, verbs - args)
      times; arguments without a verb follow as EXTRA, in order, max(0, args - verbs) of them. */
  lemma ArgumentsAccounted(c: Libc, fmt: string, args: seq<Any>)
    ensures var ts := Tokens(fmt, 0); var ps := Pieces(c, ts, args, 0); var used := Min(Verbs(ts), |args|);
      && Format(c, fmt, args) == Join(ps)
      && PrintedArgs(ps) == FromTo(0, used) && ExtraArgs(ps) == FromTo(used, |args|)
      && MissingCount(ps) == Verbs(ts) - used
  {
    FormatIsPieces(c, fmt, args, 0, 0);
    TokensHaveSpecs(fmt, 0);
    PiecesAccounted(c, Tokens(fmt, 0), args, 0);
  }

  // ---------- Binary digits ----------

  function Value(s: string): nat {
    if s == "" then 0 else 2 * Value(s[..|s| - 1]) + if s[|s| - 1] == '1' then 1 else 0
  }

  lemma {:induction false} BitsAre(v: nat, k: nat)
    requires v < Powers.Pow2(k)
    ensures Value(BitText(v)) == v && |BitText(v)| <= k
    ensures v > 0 ==> BitText(v) != "" && BitText(v)[0] == '1'
    ensures forall i :: 0 <= i < |BitText(v)| ==> BitText(v)[i] == '0' || BitText(v)[i] == '1'
  {
    if v > 0 {
      BitsAre(v / 2, k - 1);
      assert BitText(v)[..|BitText(v)| - 1] == BitText(v / 2);
    }
  }

  /** %b prints at most 64 binary digits that evaluate to the value, with no leading zero. */
  lemma BinaryIsValue(v: nat)
    requires v < UINT64
    ensures Value(Binary(v)) == v && 1 <= |Binary(v)| <= 64
    ensures forall i :: 0 <= i < |Binary(v)| ==> Binary(v)[i] == '0' || Binary(v)[i] == '1'
    ensures |Binary(v)| > 1 ==> Binary(v)[0] == '1'
  {
    Powers.WordIsPow2();
    BitsAre(v, 64);
    hide Powers.Pow2;
  }
}
