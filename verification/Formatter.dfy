/** The format engine: a growing byte buffer, the hand-written verb scanner with its 32-byte specification
    buffer, the padding and binary-digit loops, and the driver that flushes literal segments. */
module Formatter {
  import opened FormatSpec

  const SPEC_SIZE := 32

  // ---------- The buffer ----------

  class FmtBuf {
    var data: array<char>
    var len: nat

    ghost predicate Valid()
      reads this, data
    {
      len <= data.Length
    }

    ghost function Contents(): string
      requires Valid()
      reads this, data
    {
      data[..len]
    }

    constructor ()
      ensures Valid() && Contents() == "" && fresh(data)
    {
      data := new char[0];
      len := 0;
    }

    /** Makes room for `extra` more bytes by doubling from 64. */
    method Grow(extra: nat)
      requires Valid()
      modifies this`data
      ensures Valid() && Contents() == old(Contents()) && len + extra <= data.Length
      ensures data == old(data) || fresh(data)
    {
      if len + extra <= data.Length {
        return;
      }
      var newCap := if data.Length == 0 then 64 else data.Length;
      while newCap < len + extra
        invariant newCap > 0
        decreases len + extra - newCap
      {
        newCap := newCap * 2;
      }
      ghost var was := data[..len];
      var newData := new char[newCap](
        i requires 0 <= i < newCap reads this, data => if i < data.Length then data[i] else '\0');
      data := newData;
      assert data[..len] == was;
    }

    method Append(s: string)
      requires Valid()
      modifies this, data
      ensures Valid() && Contents() == old(Contents()) + s
      ensures data == old(data) || fresh(data)
    {
      if |s| == 0 {
        return;
      }
      ghost var was := Contents();
      Grow(|s|);
      var i := 0;
      while i < |s|
        invariant 0 <= i <= |s| && len == old(len) && len + |s| <= data.Length
        invariant data == old(data) || fresh(data)
        invariant data[..len + i] == was + s[..i]
      {
        data[len + i] := s[i];
        i := i + 1;
      }
      len := len + |s|;
    }
  }

  // ---------- Scanning a specification ----------

  /** Appends one character to the specification while it is short enough. */
  method Keep(spec: array<char>, n: nat, ch: char) returns (n': nat)
    requires spec.Length == SPEC_SIZE && n <= SPEC_KEPT + 1
    modifies spec
    ensures n' == if n < SPEC_SIZE - 4 then n + 1 else n
    ensures spec[..n'] == old(spec[..n]) + if n < SPEC_SIZE - 4 then [ch] else []
  {
    n' := n;
    if n' < SPEC_SIZE - 4 {
      spec[n'] := ch;
      n' := n' + 1;
    }
  }

  ghost predicate Scanned(f: string, spec: array<char>, n: nat, pos: nat)
    reads spec
  {
    spec.Length == SPEC_SIZE && n <= SPEC_KEPT + 1 && pos <= |f| && spec[..n] == Kept(f, pos)
  }

  lemma KeptNext(f: string, pos: nat)
    requires pos < |f|
    ensures Kept(f, pos + 1) == Kept(f, pos) + if |Kept(f, pos)| < SPEC_SIZE - 4 then [f[pos]] else []
  {
    if pos + 1 <= SPEC_KEPT { assert f[..pos + 1] == f[..pos] + [f[pos]]; }
  }

  /** Takes the character at pos into the specification. */
  method KeepNext(f: string, spec: array<char>, n: nat, pos: nat) returns (n': nat)
    requires Scanned(f, spec, n, pos) && pos < |f|
    modifies spec
    ensures Scanned(f, spec, n', pos + 1)
  {
    KeptNext(f, pos);
    n' := Keep(spec, n, f[pos]);
  }

  /** Takes digits into the specification. */
  method KeepDigits(f: string, spec: array<char>, n: nat, pos: nat) returns (n': nat, pos': nat)
    requires Scanned(f, spec, n, pos)
    modifies spec
    ensures Scanned(f, spec, n', pos') && pos' == DigitsEnd(f, pos)
  {
    n', pos' := n, pos;
    while pos' < |f| && IsDigit(f[pos'])
      invariant Scanned(f, spec, n', pos') && DigitsEnd(f, pos') == DigitsEnd(f, pos)
      decreases |f| - pos'
    {
      n' := KeepNext(f, spec, n', pos');
      pos' := pos' + 1;
    }
  }

  /** Flags, width and precision: at most 28 of the 32 bytes are used, however long they are. */
  method ScanSpec(f: string) returns (spec: array<char>, n: nat, pos: nat)
    ensures fresh(spec) && Scanned(f, spec, n, pos) && pos == SpecEnd(f)
  {
    spec := new char[SPEC_SIZE](_ => '\0');
    spec[0] := '%';
    n := 1;
    pos := 0;
    while pos < |f| && IsFlag(f[pos])
      invariant Scanned(f, spec, n, pos) && FlagsEnd(f, pos) == FlagsEnd(f, 0)
      decreases |f| - pos
    {
      n := KeepNext(f, spec, n, pos);
      pos := pos + 1;
    }
    n, pos := KeepDigits(f, spec, n, pos);
    if pos < |f| && f[pos] == '.' {
      n := KeepNext(f, spec, n, pos);
      n, pos := KeepDigits(f, spec, n, pos + 1);
    }
  }

  /** Completes the specification with a PRI macro and its terminator, within the 32 bytes. */
  method FinishSpec(spec: array<char>, n: nat, pri: string) returns (s: string)
    requires spec.Length == SPEC_SIZE && n <= SPEC_KEPT + 1 && 1 <= |pri| <= 3
    modifies spec
    ensures s == old(spec[..n]) + pri
  {
    ghost var was := spec[..n];
    spec[n] := pri[0];
    spec[n + 1] := if |pri| > 1 then pri[1] else '\0';
    spec[n + 2] := if |pri| > 2 then pri[2] else '\0';
    spec[n + 3] := '\0';
    s := spec[..n + |pri|];
    assert s[..n] == was;
  }

  // ---------- Printing ----------

  lemma NumberNext(s: string, from: nat, i: nat)
    requires from <= i < |s| && forall k :: from <= k <= i ==> IsDigit(s[k])
    ensures Number(s[from..i + 1]) == 10 * Number(s[from..i]) + (s[i] as int - '0' as int)
  {
    assert s[from..i + 1][..i - from] == s[from..i];
  }

  /** Width and alignment of %s, read back from the specification. */
  method ReadAlignment(spec: string) returns (left: bool, width: nat)
    requires |spec| >= 1
    ensures (left, width) == Alignment(spec)
  {
    left := false;
    var si := 1;
    if si < |spec| && spec[si] == '-' {
      left := true;
      si := si + 1;
    }
    ghost var from := si;
    width := 0;
    while si < |spec| && IsDigit(spec[si])
      invariant from <= si <= |spec| && DigitRun(spec, si) == DigitRun(spec, from)
      invariant forall k :: from <= k < si ==> IsDigit(spec[k])
      invariant width == Number(spec[from..si])
      decreases |spec| - si
    {
      NumberNext(spec, from, si);
      width := width * 10 + (spec[si] as int - '0' as int);
      si := si + 1;
    }
  }

  method AppendSpaces(b: FmtBuf, pad: nat)
    requires b.Valid()
    modifies b, b.data
    ensures b.Valid() && b.Contents() == old(b.Contents()) + Spaces(pad)
    ensures b.data == old(b.data) || fresh(b.data)
  {
    var p := 0;
    while p < pad
      invariant 0 <= p <= pad && b.Valid() && b.Contents() == old(b.Contents()) + Spaces(p)
      invariant b.data == old(b.data) || fresh(b.data)
    {
      b.Append(" ");
      assert Spaces(p) + " " == Spaces(p + 1);
      p := p + 1;
    }
  }

  method AppendPadded(b: FmtBuf, s: string, spec: string)
    requires b.Valid() && |spec| >= 1
    modifies b, b.data
    ensures b.Valid() && b.Contents() == old(b.Contents()) + Padded(s, Alignment(spec).0, Alignment(spec).1)
    ensures b.data == old(b.data) || fresh(b.data)
  {
    var left, width := ReadAlignment(spec);
    if width > 0 && width > |s| {
      if left {
        b.Append(s);
        AppendSpaces(b, width - |s|);
      } else {
        AppendSpaces(b, width - |s|);
        b.Append(s);
      }
    } else {
      b.Append(s);
    }
  }

  /** The digit loop of %b, filling a 65-byte array from its end. */
  method BinaryDigits(v: nat) returns (s: string)
    requires v < UINT64
    ensures s == Binary(v)
  {
    if v == 0 {
      return "0";
    }
    assert |BitText(v)| <= 64 by { BinaryIsValue(v); }
    var bin := new char[65](_ => '\0');
    var bi := 64;
    var val := v;
    while val > 0 && bi > 0
      invariant 0 <= bi <= 64 && BitText(v) == BitText(val) + bin[bi..64]
    {
      bi := bi - 1;
      ghost var rest := bin[bi + 1..64];
      bin[bi] := if val % 2 == 1 then '1' else '0';
      assert bin[bi..64] == [Digit(val)] + rest;
      val := val / 2;
    }
    s := bin[bi..64];
  }

  method AppendChar(b: FmtBuf, code: int)
    requires b.Valid()
    modifies b, b.data
    ensures b.Valid() && b.Contents() == old(b.Contents()) + CharText(code)
    ensures b.data == old(b.data) || fresh(b.data)
  {
    if 0 <= code <= 127 {
      b.Append([code as char]);
    }
  }

  /** The switch over the verb letter. */
  method AppendVerb(b: FmtBuf, c: Libc, spec: array<char>, n: nat, verb: char, a: Any)
    requires b.Valid() && spec.Length == SPEC_SIZE && 1 <= n <= SPEC_KEPT + 1 && 1 <= |c.prefix| <= 2
    requires b.data != spec
    modifies b, b.data, spec
    ensures b.Valid() && b.Contents() == old(b.Contents()) + VerbText(c, old(spec[..n]), verb, a)
    ensures b.data == old(b.data) || fresh(b.data)
  {
    hide Padded, Alignment, Binary, CharText;
    ghost var kept := spec[..n];
    if verb == 'd' || verb == 'x' || verb == 'o' {
      var full := FinishSpec(spec, n, c.prefix + [verb]);
      assert full == kept + c.prefix + [verb];
      b.Append(c.ints(full, if verb == 'd' && a.BoolArg? then (if a.b then 1 else 0) else AsInt(c, a)));
    } else if verb == 'f' || verb == 'e' || verb == 'g' {
      var full := FinishSpec(spec, n, [verb]);
      b.Append(c.floats(full, AsFloat(a)));
    } else if verb == 's' && a.StringArg? {
      AppendPadded(b, a.s, spec[..n]);
    } else if verb == 'v' || verb == 's' {
      b.Append(DefaultText(c, a));
    } else if verb == 't' {
      b.Append(BoolText((a.BoolArg? && a.b) || (a.IntArg? && a.i != 0)));
    } else if verb == 'b' {
      var digits := BinaryDigits(AsUnsigned(c, a));
      b.Append(digits);
    } else if verb == 'c' {
      AppendChar(b, if a.IntArg? then a.i else 0);
    } else {
      b.Append("%!");
      b.Append([verb]);
      b.Append("(BAD)");
    }
  }

  /** One verb: f is what follows the percent sign. */
  method ProcessVerb(b: FmtBuf, c: Libc, f: string, args: seq<Any>, k: nat) returns (consumed: nat, k': nat)
    requires b.Valid() && k <= |args| && 1 <= |c.prefix| <= 2
    modifies b, b.data
    ensures b.Valid() && (b.data == old(b.data) || fresh(b.data))
    ensures (consumed, k') == (OneVerb(c, f, args, k).1, OneVerb(c, f, args, k).2)
    ensures b.Contents() == old(b.Contents()) + OneVerb(c, f, args, k).0
  {
    hide VerbText, Kept;
    k' := k;
    if |f| == 0 {
      b.Append("%!(NOVERB)");
      return 0, k;
    }
    var spec, n, pos := ScanSpec(f);
    if pos >= |f| {
      b.Append("%!(NOVERB)");
      return pos, k;
    }
    var verb := f[pos];
    consumed := pos + 1;
    if verb == '%' {
      b.Append("%");
      return;
    }
    if k >= |args| {
      b.Append("%!(MISSING)");
      return;
    }
    k' := k + 1;
    KeptNonempty(f, pos);
    AppendVerb(b, c, spec, n, verb, args[k]);
  }

  lemma KeptNonempty(f: string, e: nat)
    requires e <= |f|
    ensures |Kept(f, e)| >= 1
  {
  }

  /** What the driver will have produced in the end: what is in the buffer, the literal segment that is not
      flushed yet, and the output of the rest of the format string. */
  ghost function Pending(c: Libc, fmt: string, args: seq<Any>, sofar: string, from: nat, i: nat, k: nat): string
    requires from <= i <= |fmt| && k <= |args|
  {
    sofar + fmt[from..i] + FormatFrom(c, fmt, args, i, k)
  }

  lemma PendingLiteral(c: Libc, fmt: string, args: seq<Any>, sofar: string, from: nat, i: nat, k: nat)
    requires from <= i < |fmt| && k <= |args| && fmt[i] != '%'
    ensures Pending(c, fmt, args, sofar, from, i, k) == Pending(c, fmt, args, sofar, from, i + 1, k)
  {
    assert fmt[from..i + 1] == fmt[from..i] + [fmt[i]];
  }

  lemma PendingVerb(c: Libc, fmt: string, args: seq<Any>, sofar: string, from: nat, i: nat, k: nat)
    requires from <= i < |fmt| && k <= |args| && fmt[i] == '%'
    ensures var (text, n, k') := OneVerb(c, fmt[i + 1..], args, k); var i' := i + 1 + n;
      Pending(c, fmt, args, sofar, from, i, k) == Pending(c, fmt, args, sofar + fmt[from..i] + text, i', i', k')
  {
    hide OneVerb;
  }

  lemma PendingEnd(c: Libc, fmt: string, args: seq<Any>, sofar: string, from: nat, k: nat)
    requires from <= |fmt| && k <= |args|
    ensures Pending(c, fmt, args, sofar, from, |fmt|, k) == sofar + fmt[from..|fmt|] + Extras(c, args, k)
    ensures Pending(c, fmt, args, sofar, 0, 0, 0) == sofar + Format(c, fmt, args)
  {
    assert sofar + fmt[0..0] == sofar;
  }

  /** The driver: literal segments are flushed when a percent sign or the end is reached, then the arguments
      no verb took are appended. */
  method FormatToBuf(b: FmtBuf, c: Libc, fmt: string, args: seq<Any>)
    requires b.Valid() && 1 <= |c.prefix| <= 2
    modifies b, b.data
    ensures b.Valid() && b.Contents() == old(b.Contents()) + Format(c, fmt, args)
  {
    hide OneVerb, Pending, FormatFrom, Format, Extras;
    ghost var start := b.Contents();
    PendingEnd(c, fmt, args, start, 0, 0);
    var k: nat := 0;
    var i: nat := 0;
    var literalStart: nat := 0;
    while i < |fmt|
      invariant literalStart <= i <= |fmt| && k <= |args|
      invariant b.Valid() && (b.data == old(b.data) || fresh(b.data))
      invariant Pending(c, fmt, args, b.Contents(), literalStart, i, k) == start + Format(c, fmt, args)
      decreases |fmt| - i
    {
      if fmt[i] == '%' {
        PendingVerb(c, fmt, args, b.Contents(), literalStart, i, k);
        Flush(b, fmt, literalStart, i);
        i := i + 1;
        var consumed, k' := ProcessVerb(b, c, fmt[i..], args, k);
        i := i + consumed;
        k := k';
        literalStart := i;
      } else {
        PendingLiteral(c, fmt, args, b.Contents(), literalStart, i, k);
        i := i + 1;
      }
    }
    PendingEnd(c, fmt, args, b.Contents(), literalStart, k);
    Flush(b, fmt, literalStart, i);
    AppendExtras(b, c, args, k);
  }

  lemma ExtrasStep(c: Libc, args: seq<Any>, sofar: string, k: nat)
    requires k < |args|
    ensures sofar + Extras(c, args, k)
      == sofar + "%!(EXTRA " + DefaultText(c, args[k]) + ")" + Extras(c, args, k + 1)
  {
    hide DefaultText;
  }

  lemma ExtrasEnd(c: Libc, args: seq<Any>)
    ensures Extras(c, args, |args|) == ""
  {
  }

  /** The arguments left over. */
  method AppendExtras(b: FmtBuf, c: Libc, args: seq<Any>, from: nat)
    requires b.Valid() && from <= |args|
    modifies b, b.data
    ensures b.Valid() && b.Contents() == old(b.Contents()) + Extras(c, args, from)
  {
    hide DefaultText, Extras;
    ExtrasEnd(c, args);
    var k: nat := from;
    while k < |args|
      invariant k <= |args| && b.Valid() && (b.data == old(b.data) || fresh(b.data))
      invariant b.Contents() + Extras(c, args, k) == old(b.Contents()) + Extras(c, args, from)
    {
      ExtrasStep(c, args, b.Contents(), k);
      b.Append("%!(EXTRA ");
      b.Append(DefaultText(c, args[k]));
      b.Append(")");
      k := k + 1;
    }
  }

  method Flush(b: FmtBuf, fmt: string, from: nat, to: nat)
    requires b.Valid() && from <= to <= |fmt|
    modifies b, b.data
    ensures b.Valid() && b.Contents() == old(b.Contents()) + fmt[from..to]
    ensures b.data == old(b.data) || fresh(b.data)
  {
    if to > from {
      b.Append(fmt[from..to]);
    }
  }

  /** Formats into a new string. */
  method Sprintf(c: Libc, fmt: string, args: seq<Any>) returns (s: string)
    requires 1 <= |c.prefix| <= 2
    ensures s == Format(c, fmt, args)
  {
    var b := new FmtBuf();
    FormatToBuf(b, c, fmt, args);
    s := b.data[..b.len];
  }
}
