/** The grammar of format strings, and laws of what is printed: which prefix of a verb is its specification, that a
    string written from literals and verbs is read back as exactly those, and how the verbs agree with each other. */
module FormatGrammar {
  import opened FormatSpec

  const FLAGS := "-+0 #"
  const DIGITS := "0123456789"

  /** Every character is one of those. */
  ghost predicate AllIn(s: string, chars: string) { forall i :: 0 <= i < |s| ==> s[i] in chars }

  /** Flags, then a width, then optionally a point and a precision. */
  ghost predicate IsSpec(s: string) {
    exists a: nat, b: nat :: Splits(s, a, b)
  }

  ghost predicate Splits(s: string, a: nat, b: nat) {
    && a <= b <= |s|
    && AllIn(s[..a], FLAGS) && AllIn(s[a..b], DIGITS)
    && (b < |s| ==> s[b] == '.' && AllIn(s[b + 1..], DIGITS))
  }

  lemma CharsAre(c: char)
    ensures IsFlag(c) <==> c in FLAGS
    ensures IsDigit(c) <==> c in DIGITS
  {
  }

  lemma {:induction false} FlagsEndIs(f: string, i: nat)
    requires i <= |f|
    ensures var e := FlagsEnd(f, i); AllIn(f[i..e], FLAGS) && (e < |f| ==> f[e] !in FLAGS)
    decreases |f| - i
  {
    if i < |f| {
      CharsAre(f[i]);
      if IsFlag(f[i]) {
        FlagsEndIs(f, i + 1);
        assert f[i..FlagsEnd(f, i)] == [f[i]] + f[i + 1..FlagsEnd(f, i)];
      }
    }
  }

  lemma {:induction false} DigitsEndIs(f: string, i: nat)
    requires i <= |f|
    ensures var e := DigitsEnd(f, i); AllIn(f[i..e], DIGITS) && (e < |f| ==> f[e] !in DIGITS)
    decreases |f| - i
  {
    if i < |f| {
      CharsAre(f[i]);
      if IsDigit(f[i]) {
        DigitsEndIs(f, i + 1);
        assert f[i..DigitsEnd(f, i)] == [f[i]] + f[i + 1..DigitsEnd(f, i)];
      }
    }
  }

  lemma AllInAt(f: string, i: nat, j: nat, k: nat, chars: string)
    requires i <= k < j <= |f| && AllIn(f[i..j], chars)
    ensures f[k] in chars
  {
    assert f[i..j][k - i] == f[k];
  }

  /** A run of such characters that starts at i reaches no further than to the first that is not one. */
  lemma RunEnds(f: string, i: nat, e: nat, j: nat, chars: string)
    requires i <= e <= |f| && i <= j <= |f| && AllIn(f[i..j], chars) && (e < |f| ==> f[e] !in chars)
    ensures j <= e
  {
    if e < j { AllInAt(f, i, j, e, chars); }
  }

  /** The scanner takes the longest prefix that is a specification. */
  lemma SpecIsLongest(f: string)
    ensures IsSpec(f[..SpecEnd(f)])
    ensures forall e :: SpecEnd(f) < e <= |f| ==> !IsSpec(f[..e])
  {
    SpecSplits(f);
    forall e | SpecEnd(f) < e <= |f| ensures !IsSpec(f[..e]) {
      if IsSpec(f[..e]) {
        var a: nat, b: nat :| Splits(f[..e], a, b);
        NoLonger(f, e, a, b);
      }
    }
  }

  lemma SpecSplits(f: string)
    ensures IsSpec(f[..SpecEnd(f)])
  {
    var a := FlagsEnd(f, 0);
    var w := DigitsEnd(f, a);
    var s := f[..SpecEnd(f)];
    FlagsEndIs(f, 0);
    DigitsEndIs(f, a);
    assert s[..a] == f[0..a] && s[a..w] == f[a..w];
    if w < |f| && f[w] == '.' {
      DigitsEndIs(f, w + 1);
      assert s[w + 1..] == f[w + 1..SpecEnd(f)];
    }
    assert Splits(s, a, w);
  }

  lemma NoLonger(f: string, e: nat, a: nat, b: nat)
    requires e <= |f| && Splits(f[..e], a, b)
    ensures e <= SpecEnd(f)
  {
    var s := f[..e];
    var A := FlagsEnd(f, 0);
    var w := DigitsEnd(f, A);
    FlagsEndIs(f, 0);
    DigitsEndIs(f, A);
    assert s[..a] == f[0..a] && s[a..b] == f[a..b];
    RunEnds(f, 0, A, a, FLAGS);
    if A <= b {
      assert f[A..b] == f[a..b][A - a..];
      RunEnds(f, A, w, b, DIGITS);
      if b < e {
        if b < w { AllInAt(f, A, w, b, DIGITS); }
        assert s[b + 1..] == f[b + 1..e];
        hide Splits, AllIn;
        DigitsEndIs(f, w + 1);
        RunEnds(f, w + 1, SpecEnd(f), e, DIGITS);
      }
    } else {
      if b < e { AllInAt(f, 0, A, b, FLAGS); }
    }
  }

  // ---------- Written strings are read back ----------

  /** A literal character, or a verb with its flags, width and precision; a percent sign as letter is the escape. */
  datatype Item = Literally(c: char) | Conversion(flags: string, width: string, precision: Precision, letter: char)

  datatype Precision = NoPrecision | Places(digits: string)

  predicate IsLetter(c: char) { 'a' <= c <= 'z' || 'A' <= c <= 'Z' || c == '%' }

  ghost predicate ItemOk(t: Item) {
    match t
    case Literally(c) => c != '%'
    case Conversion(flags, width, precision, letter) =>
      && AllIn(flags, FLAGS) && AllIn(width, DIGITS) && IsLetter(letter)
      && (precision.Places? ==> AllIn(precision.digits, DIGITS))
  }

  function SpecText(t: Item): string
    requires t.Conversion?
  {
    t.flags + t.width + (if t.precision.Places? then "." + t.precision.digits else "")
  }

  function Written(ts: seq<Item>): string {
    if ts == [] then "" else ItemText(ts[0]) + Written(ts[1..])
  }

  function ItemText(t: Item): string {
    match t case Literally(c) => [c] case Conversion(_, _, _, letter) => "%" + SpecText(t) + [letter]
  }

  /** The token that an item means: at most 27 characters of a specification are kept. */
  function Meaning(t: Item): Token {
    match t
    case Literally(c) => Literal(c)
    case Conversion(_, _, _, letter) =>
      var text := SpecText(t);
      if letter == '%' then Percent else Verb("%" + (if |text| <= 27 then text else text[..27]), letter)
  }

  function Meanings(ts: seq<Item>): seq<Token> {
    if ts == [] then [] else [Meaning(ts[0])] + Meanings(ts[1..])
  }

  lemma SpecTextIs(t: Item)
    requires t.Conversion? && ItemOk(t)
    ensures IsSpec(SpecText(t))
  {
    var s, a, b := SpecText(t), |t.flags|, |t.flags| + |t.width|;
    assert s[..a] == t.flags && s[a..b] == t.width;
    if t.precision.Places? { assert s[b + 1..] == t.precision.digits; }
    assert Splits(s, a, b);
  }

  /** No specification contains a letter. */
  lemma NoLetter(s: string, i: nat)
    requires IsSpec(s) && i < |s|
    ensures !IsLetter(s[i])
  {
    var a: nat, b: nat :| Splits(s, a, b);
    if i < a {
      AllInAt(s, 0, a, i, FLAGS);
    } else if i < b {
      AllInAt(s, a, b, i, DIGITS);
    } else if i > b {
      assert s[b + 1..][i - b - 1] == s[i];
    }
  }

  /** A specification that is followed by a letter ends there. */
  lemma SpecBeforeLetter(spec: string, letter: char, rest: string)
    requires IsSpec(spec) && IsLetter(letter)
    ensures SpecEnd(spec + [letter] + rest) == |spec|
  {
    var f := spec + [letter] + rest;
    var e := SpecEnd(f);
    SpecIsLongest(f);
    assert f[..|spec|] == spec;
    if e > |spec| {
      assert f[..e][|spec|] == letter;
      NoLetter(f[..e], |spec|);
    }
  }

  lemma ConversionIsRead(t: Item, rest: string)
    requires t.Conversion? && ItemOk(t)
    ensures var f := SpecText(t) + [t.letter] + rest;
      VerbToken(f) == Meaning(t) && VerbLength(f) == |SpecText(t)| + 1
  {
    var text := SpecText(t);
    var f := text + [t.letter] + rest;
    SpecTextIs(t);
    SpecBeforeLetter(text, t.letter, rest);
    hide SpecEnd, SpecText, ItemOk, IsSpec;
    assert f[..|text|] == text;
    if |text| > 27 { assert f[..27] == text[..27]; }
  }

  lemma TokensAt(fmt: string, i: nat, x: char, f: string)
    requires i < |fmt| && fmt[i] == x && fmt[i + 1..] == f
    ensures x != '%' ==> Tokens(fmt, i) == [Literal(x)] + Tokens(fmt, i + 1)
    ensures x == '%' ==> Tokens(fmt, i) == [VerbToken(f)] + Tokens(fmt, i + 1 + VerbLength(f))
  {
    hide VerbToken, VerbLength;
  }

  lemma Cut(before: string, x: char, f: string)
    ensures (before + [x] + f)[|before|] == x && (before + [x] + f)[|before| + 1..] == f
  {
  }

  lemma Rebracket(before: string, text: string, letter: string, rest: string)
    ensures before + ("%" + text + letter) + rest == before + ['%'] + (text + letter + rest)
  {
  }

  lemma ItemIsRead(before: string, t: Item, rest: string)
    requires ItemOk(t)
    ensures var fmt := before + ItemText(t) + rest;
      Tokens(fmt, |before|) == [Meaning(t)] + Tokens(fmt, |before + ItemText(t)|)
  {
    hide Tokens, SpecText, VerbToken, VerbLength;
    var fmt := before + ItemText(t) + rest;
    match t
    case Literally(x) =>
      Cut(before, x, rest);
      TokensAt(fmt, |before|, x, rest);
    case Conversion(_, _, _, letter) =>
      hide ItemOk, Meaning;
      var f := SpecText(t) + [letter] + rest;
      ConversionIsRead(t, rest);
      Rebracket(before, SpecText(t), [letter], rest);
      Cut(before, '%', f);
      TokensAt(fmt, |before|, '%', f);
  }

  lemma {:induction false} ReadFrom(before: string, ts: seq<Item>)
    requires forall k :: 0 <= k < |ts| ==> ItemOk(ts[k])
    ensures Tokens(before + Written(ts), |before|) == Meanings(ts)
    decreases ts
  {
    if ts != [] {
      var first, rest := ItemText(ts[0]), Written(ts[1..]);
      assert before + Written(ts) == before + first + rest;
      ItemIsRead(before, ts[0], rest);
      ReadFrom(before + first, ts[1..]);
      hide Tokens, ItemText, Meaning, ItemOk;
    }
  }

  /** A format string written from literals and verbs is read back as exactly those, for every such list. */
  lemma WrittenIsRead(ts: seq<Item>)
    requires forall k :: 0 <= k < |ts| ==> ItemOk(ts[k])
    ensures Tokens(Written(ts), 0) == Meanings(ts)
  {
    ReadFrom("", ts);
    assert "" + Written(ts) == Written(ts);
  }

  /** And formatting it prints, for the items in order, each verb with the next argument. */
  lemma WrittenIsPrinted(c: Libc, ts: seq<Item>, args: seq<Any>)
    requires forall k :: 0 <= k < |ts| ==> ItemOk(ts[k])
    ensures Format(c, Written(ts), args) == Join(Pieces(c, Meanings(ts), args, 0))
  {
    WrittenIsRead(ts);
    FormatIsPieces(c, Written(ts), args, 0, 0);
  }

  // ---------- What verbs print ----------

  lemma {:induction false} DigitRunIs(before: string, width: string, more: string, i: nat)
    requires AllIn(width, DIGITS) && i <= |width| && (more == "" || more[0] !in DIGITS)
    ensures DigitRun(before + width + more, |before| + i) == |before + width|
    decreases |width| - i
  {
    var s := before + width + more;
    if i < |width| {
      assert s[|before| + i] == width[i];
      CharsAre(width[i]);
      DigitRunIs(before, width, more, i + 1);
    } else if more != "" {
      assert s[|before + width|] == more[0];
      CharsAre(more[0]);
    }
  }

  lemma DigitsOnly(width: string)
    requires AllIn(width, DIGITS)
    ensures forall i :: 0 <= i < |width| ==> IsDigit(width[i])
  {
    forall i | 0 <= i < |width| ensures IsDigit(width[i]) { CharsAre(width[i]); }
  }

  /** The number that a width spells. */
  ghost function WidthOf(width: string): nat
    requires AllIn(width, DIGITS)
  {
    DigitsOnly(width);
    Number(width)
  }

  lemma AlignmentIs(left: bool, width: string, more: string)
    requires AllIn(width, DIGITS) && (more == "" || more[0] == '.')
    ensures Alignment("%" + (if left then "-" else "") + width + more) == (left, WidthOf(width))
  {
    DigitsOnly(width);
    var before := "%" + if left then "-" else "";
    var s := before + width + more;
    DigitRunIs(before, width, more, 0);
    assert s[|before|..|before + width|] == width;
    if !left && |s| > 1 {
      if width != "" { assert s[1] == width[0]; } else { assert s[1] == more[0]; }
    }
  }

  /** A string under a width, with or without the minus flag: it gets exactly the spaces that the width asks for,
      behind it or before it, and is never cut. */
  lemma StringIsPadded(c: Libc, left: bool, width: string, more: string, s: string)
    requires AllIn(width, DIGITS) && (more == "" || more[0] == '.')
    ensures var out := VerbText(c, "%" + (if left then "-" else "") + width + more, 's', StringArg(s));
      && |out| == (if |s| < WidthOf(width) then WidthOf(width) else |s|)
      && (left ==> s <= out && forall i :: |s| <= i < |out| ==> out[i] == ' ')
      && (!left ==> out[|out| - |s|..] == s && forall i :: 0 <= i < |out| - |s| ==> out[i] == ' ')
  {
    AlignmentIs(left, width, more);
    hide Alignment, WidthOf;
  }

  /** How the verbs agree: %v prints what the plain verb of the argument's kind prints, and %s does so for all but
      strings; integer verbs print a float as its truncation and float verbs an integer as that float; a Boolean is
      1 or 0 to %d, and an integer true to %t unless it is 0. */
  lemma VerbsAgree(c: Libc, spec: string, i: Int64, x: real, s: string, b: bool)
    requires |spec| >= 1
    ensures VerbText(c, spec, 'v', IntArg(i)) == VerbText(c, "%", 'd', IntArg(i)) == VerbText(c, spec, 's', IntArg(i))
    ensures VerbText(c, spec, 'v', FloatArg(x)) == VerbText(c, "%", 'g', FloatArg(x))
    ensures VerbText(c, spec, 's', FloatArg(x)) == VerbText(c, "%", 'g', FloatArg(x))
    ensures VerbText(c, spec, 'v', BoolArg(b)) == VerbText(c, spec, 't', BoolArg(b))
    ensures VerbText(c, spec, 's', BoolArg(b)) == VerbText(c, spec, 't', BoolArg(b))
    ensures VerbText(c, spec, 'v', StringArg(s)) == VerbText(c, "%", 's', StringArg(s)) == s
    ensures forall verb :: verb in "dxo" ==>
      VerbText(c, spec, verb, FloatArg(x)) == VerbText(c, spec, verb, IntArg(c.toInt64(x)))
    ensures forall verb :: verb in "feg" ==>
      VerbText(c, spec, verb, IntArg(i)) == VerbText(c, spec, verb, FloatArg(i as real))
    ensures VerbText(c, spec, 'd', BoolArg(b)) == VerbText(c, spec, 'd', IntArg(if b then 1 else 0))
    ensures VerbText(c, spec, 't', IntArg(i)) == VerbText(c, spec, 't', BoolArg(i != 0))
    ensures VerbText(c, spec, 't', BoolArg(b)) == "true" <==> b
  {
    assert "%g" == "%" + "g";
    assert Spaces(0) == "";
  }

  /** Numbers are rendered by the C library under the specification and the verb's own letter. */
  lemma NumbersAreRendered(c: Libc, spec: string, i: Int64, x: real, verb: char)
    requires |spec| >= 1
    ensures verb in "dxo" ==> VerbText(c, spec, verb, IntArg(i)) == c.ints(spec + c.prefix + [verb], i)
    ensures verb in "feg" ==> VerbText(c, spec, verb, FloatArg(x)) == c.floats(spec + [verb], x)
  {
  }

  /** %b prints the 64-bit two's complement of an integer. */
  lemma BitsArePrinted(c: Libc, spec: string, i: Int64)
    requires |spec| >= 1
    ensures Value(VerbText(c, spec, 'b', IntArg(i))) == if i >= 0 then i else i + UINT64
  {
    var v := AsUnsigned(c, IntArg(i));
    TwosComplement(c, i);
    hide AsUnsigned, Binary, Value;
    BinaryIsValue(v);
    assert VerbText(c, spec, 'b', IntArg(i)) == Binary(v);
  }

  lemma TwosComplement(c: Libc, i: Int64)
    ensures AsUnsigned(c, IntArg(i)) == (if i >= 0 then i else i + UINT64) < UINT64
  {
    if i < 0 { assert i + UINT64 == (i + UINT64) % UINT64 == i % UINT64; }
  }

  /** %c prints the character of a 7-bit code, and nothing for any other integer. */
  lemma CharsArePrinted(c: Libc, spec: string, i: Int64)
    requires |spec| >= 1
    ensures var out := VerbText(c, spec, 'c', IntArg(i));
      if 0 <= i < 128 then |out| == 1 && out[0] as int == i else out == ""
  {
  }
}
