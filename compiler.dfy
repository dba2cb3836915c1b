/** The front passes of src/compiler.cpp: source locations, comment
    stripping, literal parsing and desugaring (tokenizing and expanding the
    surface syntax). Jump linking is in linker.dfy and compile_src in
    compile.dfy. Errors that the source reports through
    ErrorReporter (which prints and exits) are returned as `Err` values. */
module Compiler {
  import opened Bytecode

  function Min(a: int, b: int): int { if a < b then a else b }

  // ---------------------------------------------------------------------
  // Source locations

  /** Line and column reached after scanning the first `n` characters of
      `s`, starting at line 1, column 1. */
  function LineColumn(s: string, n: nat): (lc: (nat, nat))
    requires n <= |s|
    ensures lc.0 >= 1 && lc.1 >= 1
  {
    if n == 0 then (1, 1)
    else
      var lc := LineColumn(s, n - 1);
      if s[n - 1] == '\n' then (lc.0 + 1, 1) else (lc.0, lc.1 + 1)
  }

  /** The line is one more than the number of newlines scanned, the column
      one more than the number of characters scanned since the last newline. */
  lemma {:induction false} LineColumnCounts(s: string, n: nat)
    requires n <= |s|
    ensures LineColumn(s, n).0 == 1 + multiset(s[..n])['\n']
    ensures LineColumn(s, n).1 <= n + 1
    ensures forall k :: n + 1 - LineColumn(s, n).1 <= k < n ==> s[k] != '\n'
    ensures LineColumn(s, n).1 <= n ==> s[n - LineColumn(s, n).1] == '\n'
  {
    if n > 0 {
      assert s[..n] == s[..n - 1] + [s[n - 1]];
      LineColumnCounts(s, n - 1);
    }
  }

  /** calculateLocation: the location of `position` in `source`, scanning
      at most the first `|source|` characters and counting lines and columns. */
  method CalculateLocation(source: string, position: nat, filename: string) returns (loc: SourceLocation)
    ensures loc.position == position && loc.filename == filename
    ensures (loc.line, loc.column) == LineColumn(source, Min(position, |source|))
  {
    var line: nat, column: nat := 1, 1;
    var i := 0;
    while i < position && i < |source|
      invariant 0 <= i <= Min(position, |source|)
      invariant (line, column) == LineColumn(source, i)
    {
      if source[i] == '\n' {
        line := line + 1;
        column := 1;
      } else {
        column := column + 1;
      }
      i := i + 1;
    }
    loc := SourceLocation(line, column, position, filename);
  }

  // ---------------------------------------------------------------------
  // Comment stripping

  // The text of `s` with its comments removed, `s` being read outside any
  // comment. A `#` comment and the newline that ends it become one newline;
  // a block comment from "/*" to the next "*/" disappears.
  function Strip(s: string): string
    decreases |s|
  {
    if s == [] then []
    else if s[0] == '#' then LineComment(s[1..])
    else if |s| >= 2 && s[0] == '/' && s[1] == '*' then BlockComment(s[2..])
    else [s[0]] + Strip(s[1..])
  }

  /** The rest of the stripped text, `s` being read inside a `#` comment. */
  function LineComment(s: string): string
    decreases |s|
  {
    if s == [] then []
    else if s[0] == '\n' then ['\n'] + Strip(s[1..])
    else LineComment(s[1..])
  }

  /** The rest of the stripped text, `s` being read inside a block comment. */
  function BlockComment(s: string): string
    decreases |s|
  {
    if |s| < 2 then []
    else if s[0] == '*' && s[1] == '/' then Strip(s[2..])
    else BlockComment(s[1..])
  }

  // How Strip, LineComment and BlockComment read the character at `i`.

  lemma StripAt(s: string, i: nat)
    requires i < |s|
    ensures s[i] == '#' ==> Strip(s[i..]) == LineComment(s[i + 1..])
    ensures s[i] != '#' && i + 1 < |s| && s[i] == '/' && s[i + 1] == '*' ==> Strip(s[i..]) == BlockComment(s[i + 2..])
    ensures s[i] != '#' && !(i + 1 < |s| && s[i] == '/' && s[i + 1] == '*') ==> Strip(s[i..]) == [s[i]] + Strip(s[i + 1..])
  {
    assert s[i..][1..] == s[i + 1..];
    if i + 1 < |s| {
      assert s[i..][2..] == s[i + 2..];
    }
  }

  lemma LineCommentAt(s: string, i: nat)
    requires i < |s|
    ensures s[i] == '\n' ==> LineComment(s[i..]) == ['\n'] + Strip(s[i + 1..])
    ensures s[i] != '\n' ==> LineComment(s[i..]) == LineComment(s[i + 1..])
  {
    assert s[i..][1..] == s[i + 1..];
  }

  lemma BlockCommentAt(s: string, i: nat)
    requires i < |s|
    ensures i + 1 < |s| && s[i] == '*' && s[i + 1] == '/' ==> BlockComment(s[i..]) == Strip(s[i + 2..])
    ensures !(i + 1 < |s| && s[i] == '*' && s[i + 1] == '/') ==> BlockComment(s[i..]) == BlockComment(s[i + 1..])
  {
    assert s[i..][1..] == s[i + 1..];
    if i + 1 < |s| {
      assert s[i..][2..] == s[i + 2..];
    }
  }

  /** The scan over a `#` comment: up to the newline that ends it. */
  method SkipToNewline(s: string, i: nat) returns (j: nat)
    requires i <= |s|
    ensures i <= j <= |s| && (j < |s| ==> s[j] == '\n')
    ensures LineComment(s[j..]) == LineComment(s[i..])
    ensures forall k :: i <= k < j ==> s[k] != '\n'
  {
    j := i;
    while j < |s| && s[j] != '\n'
      invariant i <= j <= |s|
      invariant forall k :: i <= k < j ==> s[k] != '\n'
      invariant LineComment(s[j..]) == LineComment(s[i..])
    {
      LineCommentAt(s, j);
      j := j + 1;
    }
  }

  /** A `#` comment from `i`: up to and including the newline that ends
      it, which is kept; a comment that runs to the end leaves nothing. */
  method ScanLineComment(s: string, i: nat) returns (nl: string, next: nat)
    requires i < |s| && s[i] == '#'
    ensures i < next <= |s|
    ensures nl == "\n" || nl == ""
    ensures nl == "\n" <==> s[next - 1] == '\n'
    ensures Strip(s[i..]) == nl + Strip(s[next..])
  {
    StripAt(s, i);
    var j := SkipToNewline(s, i + 1);
    // The source's `continue` then steps past the newline; when the
    // comment runs to the end there is nothing left to step past.
    if j < |s| {
      LineCommentAt(s, j);
      nl, next := "\n", j + 1;
    } else {
      assert s[j..] == [];
      nl, next := "", j;
    }
  }

  /** The stripped text still to come from position `i`. */
  ghost function Pending(s: string, i: nat, inBlock: bool): string
    requires i <= |s|
  {
    if inBlock then BlockComment(s[i..]) else Strip(s[i..])
  }

  lemma Emit(out: string, x: string, r: string, r': string, total: string)
    requires out + r == total && r == x + r'
    ensures (out + x) + r' == total
  {
    assert out + (x + r') == (out + x) + r';
  }

  /** strip_comments: one pass over `s` with an in-block flag. */
  method StripComments(s: string) returns (out: string)
    ensures out == Strip(s)
  {
    out := [];
    var inBlock := false;
    var i := 0;
    assert s[0..] == s;
    assert out + Pending(s, 0, false) == Strip(s);
    while i < |s|
      invariant 0 <= i <= |s|
      invariant out + Pending(s, i, inBlock) == Strip(s)
    {
      if !inBlock && s[i] == '#' {
        var nl, j := ScanLineComment(s, i);
        Emit(out, nl, Pending(s, i, false), Strip(s[j..]), Strip(s));
        out := out + nl;
        i := j;
      } else if !inBlock && i + 1 < |s| && s[i] == '/' && s[i + 1] == '*' {
        StripAt(s, i);
        inBlock := true;
        i := i + 2;
      } else if inBlock && i + 1 < |s| && s[i] == '*' && s[i + 1] == '/' {
        BlockCommentAt(s, i);
        inBlock := false;
        i := i + 2;
      } else {
        if !inBlock {
          StripAt(s, i);
          Emit(out, [s[i]], Pending(s, i, false), Strip(s[i + 1..]), Strip(s));
          out := out + [s[i]];
        } else {
          BlockCommentAt(s, i);
        }
        i := i + 1;
      }
    }
    assert s[i..] == [];
    assert out + [] == out;
  }

  /** No comment starts inside `s`: no `#`, and no slash followed by a star. */
  predicate CommentFree(s: string) {
    forall k :: 0 <= k < |s| ==> s[k] != '#' && (s[k] == '/' && k + 1 < |s| ==> s[k + 1] != '*')
  }

  // No "*/" occurs inside `s`.
  predicate NoBlockEnd(s: string) {
    forall k :: 0 <= k < |s| - 1 ==> !(s[k] == '*' && s[k + 1] == '/')
  }

  /** Text outside comments is kept unchanged and in order. */
  lemma {:induction false} StripKeepsText(a: string, b: string)
    requires CommentFree(a)
    requires a != [] && a[|a| - 1] == '/' ==> b == [] || b[0] != '*'
    ensures Strip(a + b) == a + Strip(b)
    decreases |a|
  {
    if a == [] {
      assert a + b == b;
    } else {
      var s := a + b;
      assert s[0] == a[0] != '#';
      assert !(|s| >= 2 && s[0] == '/' && s[1] == '*') by {
        if |a| >= 2 {
          assert s[1] == a[1];
        } else if |s| >= 2 {
          assert s[1] == b[0];
        }
      }
      assert s[1..] == a[1..] + b;
      assert CommentFree(a[1..]) by {
        forall k | 0 <= k < |a| - 1 ensures a[1..][k] == a[k + 1] { }
      }
      StripKeepsText(a[1..], b);
      assert a == [a[0]] + a[1..];
    }
  }

  /** A text without comments is its own stripped form. */
  lemma StripCommentFree(s: string)
    requires CommentFree(s)
    ensures Strip(s) == s
  {
    StripKeepsText(s, []);
    assert s + [] == s;
  }

  lemma {:induction false} LineCommentSkips(body: string, rest: string)
    requires '\n' !in body
    ensures LineComment(body + "\n" + rest) == "\n" + Strip(rest)
    ensures LineComment(body) == []
    decreases |body|
  {
    if body == [] {
      assert ("\n" + rest)[1..] == rest;
    } else {
      assert (body + "\n" + rest)[1..] == body[1..] + "\n" + rest;
      LineCommentSkips(body[1..], rest);
    }
  }

  /** A `#` comment up to a newline becomes exactly that newline; one that
      runs to the end of the text becomes nothing. */
  lemma StripLineComment(body: string, rest: string)
    requires '\n' !in body
    ensures Strip("#" + body + "\n" + rest) == "\n" + Strip(rest)
    ensures Strip("#" + body) == []
  {
    LineCommentSkips(body, rest);
    assert ("#" + body + "\n" + rest)[1..] == body + "\n" + rest;
    assert ("#" + body)[1..] == body;
  }

  lemma {:induction false} BlockCommentSkips(body: string, rest: string)
    requires NoBlockEnd(body)
    ensures BlockComment(body + "*/" + rest) == Strip(rest)
    ensures BlockComment(body) == []
    decreases |body|
  {
    if body == [] {
      assert ("*/" + rest)[2..] == rest;
    } else {
      assert (body + "*/" + rest)[1..] == body[1..] + "*/" + rest;
      BlockCommentSkips(body[1..], rest);
    }
  }

  /** A closed block comment disappears; an unterminated one drops the rest
      of the text. */
  lemma StripBlockComment(body: string, rest: string)
    requires NoBlockEnd(body)
    ensures Strip("/*" + body + "*/" + rest) == Strip(rest)
    ensures Strip("/*" + body) == []
  {
    BlockCommentSkips(body, rest);
    assert ("/*" + body + "*/" + rest)[2..] == body + "*/" + rest;
    assert ("/*" + body)[2..] == body;
  }

  // ---------------------------------------------------------------------
  // Character classes and numeric literals

  /** is_ident: a character of a label or annotation name. */
  predicate IsIdent(c: char) { IsAlnum(c) || c == '_' || c == '-' }

  /** A name ends at white space and at every syntax character except `-`,
      which both names and the DEC operator use: `[@a-` is the label `a-`. */
  lemma IdentChars(c: char)
    ensures IsIdent(c) <==> ('a' <= c <= 'z' || 'A' <= c <= 'Z' || '0' <= c <= '9' || c == '_' || c == '-')
    ensures IsIdent(c) ==> !IsSpace(c) && c != '@' && c != '=' && c != ':' && c != '#'
    ensures IsIdent(c) && IsOpChar(c) <==> c == '-'
  {
  }

  /** The characters the `=` scanner accepts as part of a literal. */
  predicate IsNumChar(c: char) {
    IsDigit(c) || c == 'x' || c == 'X' || c == 'b' || c == 'B' || 'a' <= c <= 'f' || 'A' <= c <= 'F'
  }

  /** A digit's value as strtoul reads it: letters count from 10; anything
      else gets 36, which no base accepts. */
  function DigitValue(c: char): nat {
    if IsDigit(c) then c as int - '0' as int
    else if 'a' <= c <= 'z' then c as int - 'a' as int + 10
    else if 'A' <= c <= 'Z' then c as int - 'A' as int + 10
    else 36
  }

  predicate IsBinDigit(c: char) { DigitValue(c) < 2 }
  predicate IsDecDigit(c: char) { DigitValue(c) < 10 }
  predicate IsHexDigit(c: char) { DigitValue(c) < 16 }

  /** The digit class of one of the three bases the literals use. */
  function DigitsOf(base: nat): (p: char -> bool)
    requires base == 2 || base == 10 || base == 16
    ensures forall c :: p(c) <==> DigitValue(c) < base
  {
    if base == 2 then IsBinDigit else if base == 16 then IsHexDigit else IsDecDigit
  }

  /** The length of the longest prefix of `t` whose characters all satisfy `p`. */
  function Span(t: string, p: char -> bool): (n: nat)
    ensures n <= |t|
    ensures forall k :: 0 <= k < n ==> p(t[k])
    ensures n < |t| ==> !p(t[n])
  {
    if t == [] || !p(t[0]) then 0 else 1 + Span(t[1..], p)
  }

  /** The longest run is the only run that is followed by a mismatch. */
  lemma SpanIs(t: string, p: char -> bool, n: nat)
    requires n <= |t|
    requires forall k :: 0 <= k < n ==> p(t[k])
    requires n < |t| ==> !p(t[n])
    ensures Span(t, p) == n
  {
  }

  /** The value of the digit string `ds` in positional notation. */
  function DigitsValue(ds: string, base: nat): nat
    decreases |ds|
  {
    if ds == [] then 0 else DigitsValue(ds[..|ds| - 1], base) * base + DigitValue(ds[|ds| - 1])
  }

  /** What std::stoul returns or throws. */
  datatype Conversion = Converted(value: nat) | InvalidArgument | OutOfRange

  /** std::stoul(s, nullptr, base): skip leading white space, take an optional
      sign and, in base 16, an optional `0x`/`0X`, then read the longest run of
      digits. No digit at all throws invalid_argument; a magnitude above
      ULONG_MAX throws out_of_range; a minus sign negates modulo 2^64. */
  function Stoul(s: string, base: nat): (r: Conversion)
    requires base == 2 || base == 10 || base == 16
    ensures r.Converted? ==> r.value <= ULongMax
  {
    var t := s[Span(s, IsSpace)..];
    var negative := t != [] && t[0] == '-';
    var u := if t != [] && (t[0] == '-' || t[0] == '+') then t[1..] else t;
    var body :=
      if base == 16 && |u| >= 3 && u[0] == '0' && (u[1] == 'x' || u[1] == 'X') && IsHexDigit(u[2])
      then u[2..] else u;
    ReadDigits(body, base, negative)
  }

  /** stoul throws invalid_argument exactly when no digit follows the
      leading white space and the optional sign. */
  lemma StoulNoDigit(s: string, base: nat)
    requires base == 2 || base == 10 || base == 16
    ensures var t := s[Span(s, IsSpace)..];
            var u := if t != [] && (t[0] == '-' || t[0] == '+') then t[1..] else t;
            Stoul(s, base).InvalidArgument? <==> u == [] || DigitValue(u[0]) >= base
  {
  }

  /** The digit-reading part of stoul, after white space, sign and prefix. */
  function ReadDigits(body: string, base: nat, negative: bool): (r: Conversion)
    requires base == 2 || base == 10 || base == 16
    ensures r.Converted? ==> r.value <= ULongMax
    ensures r.InvalidArgument? <==> body == [] || DigitValue(body[0]) >= base
  {
    var n := Span(body, DigitsOf(base));
    if n == 0 then InvalidArgument
    else
      var magnitude := DigitsValue(body[..n], base);
      if magnitude > ULongMax then OutOfRange
      else if negative then Converted((ULongMax + 1 - magnitude) % (ULongMax + 1))
      else Converted(magnitude)
  }

  predicate HasHexPrefix(s: string) { |s| >= 2 && s[0] == '0' && (s[1] == 'x' || s[1] == 'X') }

  predicate HasBinaryPrefix(s: string) { |s| >= 1 && (s[0] == 'b' || s[0] == 'B') }

  /** How parse_number treats what stoul gave: either exception becomes
      INVALID_NUMBER_FORMAT, a value above 255 OUT_OF_RANGE. */
  function ByteOrError(c: Conversion): Result<int, ErrorCode> {
    match c
    case Converted(v) => if v > 255 then Err(OUT_OF_RANGE) else Ok(v)
    case _ => Err(INVALID_NUMBER_FORMAT)
  }

  /** parse_number: a `0x`/`0X` hexadecimal, `b`/`B` binary or decimal literal
      that must fit a byte. */
  function ParseNumber(s: string): (r: Result<int, ErrorCode>)
    ensures r.Ok? ==> 0 <= r.value <= 255
    ensures r.Err? ==> r.error == OUT_OF_RANGE || r.error == EMPTY_NUMBER || r.error == INVALID_NUMBER_FORMAT
  {
    if HasHexPrefix(s) then
      if |s| <= 2 then Err(EMPTY_NUMBER) else ByteOrError(Stoul(s[2..], 16))
    else if HasBinaryPrefix(s) then
      if |s| <= 1 then Err(EMPTY_NUMBER) else ByteOrError(Stoul(s[1..], 2))
    else
      ByteOrError(Stoul(s, 10))
  }

  /** EMPTY_NUMBER is reported exactly for a bare prefix. */
  lemma ParseEmptyNumber(s: string)
    ensures ParseNumber(s) == Err(EMPTY_NUMBER) <==> s == "0x" || s == "0X" || s == "b" || s == "B"
  {
    if |s| == 2 && HasHexPrefix(s) {
      assert s == ['0', s[1]];
    } else if |s| == 1 && HasBinaryPrefix(s) {
      assert s == [s[0]];
    }
  }

  /** The digits of `ds` all belong to `base`. */
  predicate AllDigits(ds: string, base: nat) {
    forall k :: 0 <= k < |ds| ==> DigitValue(ds[k]) < base
  }

  /** stoul on a plain run of digits followed by a non-digit reads the run. */
  lemma StoulDigits(ds: string, rest: string, base: nat)
    requires base == 2 || base == 10 || base == 16
    requires ds != [] && AllDigits(ds, base)
    requires rest == [] || DigitValue(rest[0]) >= base
    requires base == 16 ==> !HasHexPrefix(ds + rest)
    ensures Stoul(ds + rest, base)
         == if DigitsValue(ds, base) <= ULongMax then Converted(DigitsValue(ds, base)) else OutOfRange
  {
    var s := ds + rest;
    assert s[0] == ds[0];
    SpanIs(s, IsSpace, 0);
    assert s[0..] == s;
    ReadDigitsRun(ds, rest, base);
  }

  lemma ReadDigitsRun(ds: string, rest: string, base: nat)
    requires base == 2 || base == 10 || base == 16
    requires ds != [] && AllDigits(ds, base)
    requires rest == [] || DigitValue(rest[0]) >= base
    ensures ReadDigits(ds + rest, base, false)
         == if DigitsValue(ds, base) <= ULongMax then Converted(DigitsValue(ds, base)) else OutOfRange
  {
    var s := ds + rest;
    var p := DigitsOf(base);
    forall k | 0 <= k < |ds| ensures p(s[k]) {
      assert s[k] == ds[k];
    }
    assert |ds| < |s| ==> s[|ds|] == rest[0];
    SpanIs(s, p, |ds|);
    assert s[..|ds|] == ds;
  }

  /** A decimal literal is read as its value, which must be at most 255;
      a value beyond ULONG_MAX makes stoul throw. */
  lemma ParseDecimal(ds: string)
    requires ds != [] && AllDigits(ds, 10)
    ensures var v := DigitsValue(ds, 10);
      ParseNumber(ds)
      == if v <= 255 then Ok(v) else if v <= ULongMax then Err(OUT_OF_RANGE) else Err(INVALID_NUMBER_FORMAT)
  {
    assert !HasHexPrefix(ds) && !HasBinaryPrefix(ds) by {
      assert DigitValue(ds[0]) < 10;
      assert |ds| >= 2 ==> DigitValue(ds[1]) < 10;
    }
    assert ds + [] == ds;
    StoulDigits(ds, [], 10);
  }

  /** stoul reads the longest digit prefix: what follows it is ignored. */
  lemma ParseDecimalPrefix(ds: string, rest: string)
    requires ds != [] && AllDigits(ds, 10)
    requires rest == [] || !IsDigit(rest[0])
    requires !HasHexPrefix(ds + rest)
    ensures ParseNumber(ds + rest) == ParseNumber(ds)
  {
    assert (ds + rest)[0] == ds[0];
    assert DigitValue(ds[0]) < 10;
    assert !HasBinaryPrefix(ds + rest);
    StoulDigits(ds, rest, 10);
    ParseDecimal(ds);
  }

  /** `1f` in decimal reads as 1. */
  lemma ParseStopsAtNonDigit()
    ensures ParseNumber("1f") == Ok(1)
  {
    var one, f := "1", "f";
    assert one + f == "1f";
    assert AllDigits(one, 10) by { assert DigitValue(one[0]) == 1; }
    assert DigitsValue(one, 10) == 1 by { assert one[..0] == []; }
    ParseDecimalPrefix(one, f);
    ParseDecimal(one);
  }

  /** `0x` followed by hexadecimal digits is read in base 16. */
  lemma ParseHex(hs: string, x: char)
    requires x == 'x' || x == 'X'
    requires hs != [] && AllDigits(hs, 16)
    ensures var v := DigitsValue(hs, 16);
      ParseNumber(['0', x] + hs)
      == if v <= 255 then Ok(v) else if v <= ULongMax then Err(OUT_OF_RANGE) else Err(INVALID_NUMBER_FORMAT)
  {
    var s := ['0', x] + hs;
    assert s[2..] == hs + [];
    assert HasHexPrefix(s) && |s| > 2;
    assert ParseNumber(s) == ByteOrError(Stoul(hs, 16));
    StoulDigits(hs, [], 16);
  }

  /** `b` followed by binary digits is read in base 2. */
  lemma ParseBinary(bs: string, b: char)
    requires b == 'b' || b == 'B'
    requires bs != [] && AllDigits(bs, 2)
    ensures var v := DigitsValue(bs, 2);
      ParseNumber([b] + bs)
      == if v <= 255 then Ok(v) else if v <= ULongMax then Err(OUT_OF_RANGE) else Err(INVALID_NUMBER_FORMAT)
  {
    var s := [b] + bs;
    assert s[1..] == bs + [];
    assert !HasHexPrefix(s) && HasBinaryPrefix(s) && |s| > 1;
    assert ParseNumber(s) == ByteOrError(Stoul(bs, 2));
    StoulDigits(bs, [], 2);
  }

  /** A literal that starts with a letter other than the binary prefix has
      no leading decimal digit. */
  lemma ParseNoDigit(s: string)
    requires s != [] && IsNumChar(s[0]) && !IsDigit(s[0]) && !HasBinaryPrefix(s)
    ensures ParseNumber(s) == Err(INVALID_NUMBER_FORMAT)
  {
    SpanIs(s, IsSpace, 0);
    assert s[0..] == s;
  }

  // ---------------------------------------------------------------------
  // Desugaring

  /** The characters that stand for one primitive operation each. */
  predicate IsOpChar(c: char) {
    c == '>' || c == '<' || c == '+' || c == '-' || c == '.' || c == ',' || c == '[' || c == ']' || c == '?' || c == '!'
  }

  function OpOf(c: char): Op
    requires IsOpChar(c)
  {
    if c == '>' then INC_PTR
    else if c == '<' then DEC_PTR
    else if c == '+' then INC
    else if c == '-' then DEC
    else if c == '.' then OUT
    else if c == ',' then IN
    else if c == '[' then JZ
    else if c == ']' then JNZ
    else if c == '?' then ZERO_IF_EOF
    else DBG
  }

  /** The instruction a plain operator character emits: argument 1, except
      that `!` carries the debug width. */
  function PlainInstr(c: char, dbgWidth: int): Instr
    requires IsOpChar(c)
  {
    Instr(OpOf(c), if c == '!' then dbgWidth else DefaultArg, "")
  }

  /** parseRepeat on the text `t` that follows an operator: the repeat count
      and how many characters the suffix takes. */
  function RepeatSuffix(t: string): (r: (nat, nat))
    ensures r.1 <= |t|
  {
    if t != [] && t[0] == 'x' then
      var d := Span(t[1..], IsDigit);
      if d > 0 then (DigitsValue(t[1..1 + d], 10), 1 + d) else (1, 0)
    else (1, 0)
  }

  /** One token: what it emits (or the literal parser's error) and its length. */
  datatype Lexeme<E> = Lexeme(emit: Result<seq<Instr>, E>, len: nat)

  /** The token at the start of `t`, with `parse` reading `=` literals. */
  function Token<E>(t: string, dbgWidth: int, parse: string -> Result<int, E>): (lx: Lexeme<E>)
    requires t != []
    ensures 1 <= lx.len <= |t|
  {
    var c := t[0];
    if IsOpChar(c) then
      if (c == '[' || c == ']') && |t| >= 2 && t[1] == '@' then
        var n := Span(t[2..], IsIdent);
        if n == 0 then Lexeme(Ok([]), 1)
        else Lexeme(Ok([Instr(if c == '[' then JZ else JNZ, DefaultArg, t[2..2 + n])]), 2 + n)
      else
        var rep := RepeatSuffix(t[1..]);
        Lexeme(Ok(Copies(PlainInstr(c, dbgWidth), rep.0)), 1 + rep.1)
    else if c == '=' then
      var n := Span(t[1..], IsNumChar);
      if n == 0 then Lexeme(Ok([]), 1)
      else
        match parse(t[1..1 + n])
        case Ok(v) => Lexeme(Ok([Instr(CLEAR, 0, ""), Instr(INC, v, "")]), 1 + n)
        case Err(e) => Lexeme(Err(e), 1 + n)
    else if c == ':' then Lexeme(Ok([]), 1 + Span(t[1..], IsIdent))
    else Lexeme(Ok([]), 1)
  }

  /** `code` followed by what `r` emits, or `r`'s error. */
  function Prepend<E>(code: seq<Instr>, r: Result<seq<Instr>, E>): Result<seq<Instr>, E> {
    match r
    case Ok(rest) => Ok(code + rest)
    case Err(e) => Err(e)
  }

  lemma PrependNothing<E>(r: Result<seq<Instr>, E>)
    ensures Prepend([], r) == r
  {
    if r.Ok? {
      assert [] + r.value == r.value;
    }
  }

  lemma PrependAssoc<E>(a: seq<Instr>, b: seq<Instr>, r: Result<seq<Instr>, E>)
    ensures Prepend(a, Prepend(b, r)) == Prepend(a + b, r)
  {
    if r.Ok? {
      assert a + (b + r.value) == (a + b) + r.value;
    }
  }

  /** The instructions the text `t` desugars to, token by token. White space
      needs no rule of its own: like every other unknown character it is skipped. */
  function Desugar<E>(t: string, dbgWidth: int, parse: string -> Result<int, E>): Result<seq<Instr>, E>
    decreases |t|
  {
    if t == [] then Ok([])
    else
      var lx := Token(t, dbgWidth, parse);
      match lx.emit
      case Err(e) => Err(e)
      case Ok(code) => Prepend(code, Desugar(t[lx.len..], dbgWidth, parse))
  }

  /** Desugaring from position `i` is the token there followed by the rest. */
  lemma DesugarStep<E>(src: string, i: nat, dbgWidth: int, parse: string -> Result<int, E>)
    requires i < |src|
    ensures var lx := Token(src[i..], dbgWidth, parse);
      Desugar(src[i..], dbgWidth, parse)
      == match lx.emit
         case Err(e) => Err(e)
         case Ok(code) => Prepend(code, Desugar(src[i + lx.len..], dbgWidth, parse))
  {
    var lx := Token(src[i..], dbgWidth, parse);
    assert src[i..][lx.len..] == src[i + lx.len..];
  }

  /** parseRepeat: an `x` and a run of decimal digits at `j` give the repeat
      count (std::stoi), anything else the count 1 and no suffix. */
  method ParseRepeat(src: string, j: nat) returns (rep: nat, next: nat)
    requires j <= |src|
    ensures j <= next <= |src|
    ensures (rep, next - j) == RepeatSuffix(src[j..])
  {
    rep, next := 1, j;
    if j < |src| && src[j] == 'x' {
      var k := j + 1;
      while k < |src| && IsDigit(src[k])
        invariant j + 1 <= k <= |src|
        invariant forall m :: j + 1 <= m < k ==> IsDigit(src[m])
      {
        k := k + 1;
      }
      assert src[j..][1..] == src[j + 1..];
      SpanIs(src[j + 1..], IsDigit, k - (j + 1));
      if k > j + 1 {
        assert src[j..][1..k - j] == src[j + 1..k];
        rep := DigitsValue(src[j + 1..k], 10);
        next := k;
      }
    }
  }

  /** Desugaring `t` whose first token is `lx`: its instructions, then the rest. */
  lemma DesugarToken<E>(t: string, lx: Lexeme<E>, dbgWidth: int, parse: string -> Result<int, E>)
    requires t != [] && Token(t, dbgWidth, parse) == lx
    ensures Desugar(t, dbgWidth, parse)
         == match lx.emit
            case Err(e) => Err(e)
            case Ok(code) => Prepend(code, Desugar(t[lx.len..], dbgWidth, parse))
  {
  }

  // One lemma per kind of token: desugaring from `i` emits the token's
  // instructions and continues at `j`, where the method's scan stops.

  lemma LexSkip<E>(src: string, i: nat, dbgWidth: int, parse: string -> Result<int, E>)
    requires i < |src| && !IsOpChar(src[i]) && src[i] != '=' && src[i] != ':'
    ensures Desugar(src[i..], dbgWidth, parse) == Desugar(src[i + 1..], dbgWidth, parse)
  {
    var t := src[i..];
    DesugarToken(t, Lexeme(Ok([]), 1), dbgWidth, parse);
    assert t[1..] == src[i + 1..];
    var d := Desugar(src[i + 1..], dbgWidth, parse);
    assert d.Ok? ==> [] + d.value == d.value;
  }

  lemma LexLabeled<E>(src: string, i: nat, j: nat, dbgWidth: int, parse: string -> Result<int, E>)
    requires i + 2 <= j <= |src| && (src[i] == '[' || src[i] == ']') && src[i + 1] == '@'
    requires forall m :: i + 2 <= m < j ==> IsIdent(src[m])
    requires j < |src| ==> !IsIdent(src[j])
    ensures j == i + 2 ==> Desugar(src[i..], dbgWidth, parse) == Desugar(src[i + 1..], dbgWidth, parse)
    ensures j > i + 2 ==>
      Desugar(src[i..], dbgWidth, parse)
      == Prepend([Instr(if src[i] == '[' then JZ else JNZ, DefaultArg, src[i + 2..j])], Desugar(src[j..], dbgWidth, parse))
  {
    var t := src[i..];
    var n := j - (i + 2);
    assert t[2..] == src[i + 2..];
    SpanIs(t[2..], IsIdent, n);
    if n == 0 {
      DesugarToken(t, Lexeme(Ok([]), 1), dbgWidth, parse);
      assert t[1..] == src[i + 1..];
      var d := Desugar(src[i + 1..], dbgWidth, parse);
      assert d.Ok? ==> [] + d.value == d.value;
    } else {
      assert t[2..2 + n] == src[i + 2..j];
      var ins := Instr(if src[i] == '[' then JZ else JNZ, DefaultArg, src[i + 2..j]);
      DesugarToken(t, Lexeme(Ok([ins]), 2 + n), dbgWidth, parse);
      assert t[2 + n..] == src[j..];
    }
  }

  lemma LexPlain<E>(src: string, i: nat, rep: nat, j: nat, dbgWidth: int, parse: string -> Result<int, E>)
    requires i < |src| && IsOpChar(src[i])
    requires !((src[i] == '[' || src[i] == ']') && i + 1 < |src| && src[i + 1] == '@')
    requires i + 1 <= j <= |src| && (rep, j - (i + 1)) == RepeatSuffix(src[i + 1..])
    ensures Desugar(src[i..], dbgWidth, parse)
         == Prepend(Copies(PlainInstr(src[i], dbgWidth), rep), Desugar(src[j..], dbgWidth, parse))
  {
    var t := src[i..];
    assert t[1..] == src[i + 1..];
    DesugarToken(t, Lexeme(Ok(Copies(PlainInstr(src[i], dbgWidth), rep)), j - i), dbgWidth, parse);
    assert t[j - i..] == src[j..];
  }

  lemma LexAssign<E>(src: string, i: nat, j: nat, dbgWidth: int, parse: string -> Result<int, E>)
    requires i + 1 <= j <= |src| && src[i] == '='
    requires forall m :: i + 1 <= m < j ==> IsNumChar(src[m])
    requires j < |src| ==> !IsNumChar(src[j])
    ensures j == i + 1 ==> Desugar(src[i..], dbgWidth, parse) == Desugar(src[j..], dbgWidth, parse)
    ensures j > i + 1 ==>
      Desugar(src[i..], dbgWidth, parse)
      == match parse(src[i + 1..j])
         case Ok(v) => Prepend([Instr(CLEAR, 0, ""), Instr(INC, v, "")], Desugar(src[j..], dbgWidth, parse))
         case Err(e) => Err(e)
  {
    var t := src[i..];
    var n := j - (i + 1);
    assert t[1..] == src[i + 1..];
    SpanIs(t[1..], IsNumChar, n);
    assert t[1 + n..] == src[j..];
    if n == 0 {
      DesugarToken(t, Lexeme(Ok([]), 1), dbgWidth, parse);
      var d := Desugar(src[j..], dbgWidth, parse);
      assert d.Ok? ==> [] + d.value == d.value;
    } else {
      assert t[1..1 + n] == src[i + 1..j];
      match parse(src[i + 1..j])
      case Ok(v) =>
        DesugarToken(t, Lexeme(Ok([Instr(CLEAR, 0, ""), Instr(INC, v, "")]), 1 + n), dbgWidth, parse);
      case Err(e) =>
        DesugarToken(t, Lexeme(Err(e), 1 + n), dbgWidth, parse);
    }
  }

  lemma LexAnnotation<E>(src: string, i: nat, j: nat, dbgWidth: int, parse: string -> Result<int, E>)
    requires i + 1 <= j <= |src| && src[i] == ':'
    requires forall m :: i + 1 <= m < j ==> IsIdent(src[m])
    requires j < |src| ==> !IsIdent(src[j])
    ensures Desugar(src[i..], dbgWidth, parse) == Desugar(src[j..], dbgWidth, parse)
  {
    var t := src[i..];
    var n := j - (i + 1);
    assert t[1..] == src[i + 1..];
    SpanIs(t[1..], IsIdent, n);
    assert t[1 + n..] == src[j..];
    DesugarToken(t, Lexeme(Ok([]), 1 + n), dbgWidth, parse);
    var d := Desugar(src[j..], dbgWidth, parse);
    assert d.Ok? ==> [] + d.value == d.value;
  }

  /** Skipping a run of white space leaves what is left to desugar unchanged. */
  lemma {:induction false} LexSkipRun<E>(src: string, i: nat, k: nat, dbgWidth: int, parse: string -> Result<int, E>)
    requires i <= k <= |src|
    requires forall m :: i <= m < k ==> IsSpace(src[m])
    ensures Desugar(src[i..], dbgWidth, parse) == Desugar(src[k..], dbgWidth, parse)
    decreases k - i
  {
    if i < k {
      LexSkip(src, i, dbgWidth, parse);
      LexSkipRun(src, i + 1, k, dbgWidth, parse);
    }
  }

  /** The scanning loops of desugar (skipws, the label, literal and
      annotation scans): the end of the run of `p` characters from `j`. */
  method ScanWhile(src: string, j: nat, p: char -> bool) returns (k: nat)
    requires j <= |src|
    ensures j <= k <= |src|
    ensures forall m :: j <= m < k ==> p(src[m])
    ensures k < |src| ==> !p(src[k])
  {
    k := j;
    while k < |src| && p(src[k])
      invariant j <= k <= |src|
      invariant forall m :: j <= m < k ==> p(src[m])
    {
      k := k + 1;
    }
  }

  /** The `for` loop of desugar that pushes `rep` copies of `ins`. */
  method PushCopies(code: seq<Instr>, ins: Instr, rep: nat) returns (out: seq<Instr>)
    ensures out == code + Copies(ins, rep)
  {
    out := code;
    for k := 0 to rep
      invariant out == code + Copies(ins, k)
    {
      out := out + [ins];
    }
  }

  /** The body of desugar's loop below white space: the instructions of the
      token at `i` (or the literal parser's error) and where the next one starts. */
  method LexAt<E>(src: string, i: nat, dbgWidth: int, parse: string -> Result<int, E>)
    returns (emit: Result<seq<Instr>, E>, next: nat)
    requires i < |src|
    ensures i < next <= |src|
    ensures emit.Err? ==> Desugar(src[i..], dbgWidth, parse) == Err(emit.error)
    ensures emit.Ok? ==> Desugar(src[i..], dbgWidth, parse) == Prepend(emit.value, Desugar(src[next..], dbgWidth, parse))
  {
    var c := src[i];
    if IsOpChar(c) {
      if (c == '[' || c == ']') && i + 1 < |src| && src[i + 1] == '@' {
        var j := ScanWhile(src, i + 2, IsIdent);
        LexLabeled(src, i, j, dbgWidth, parse);
        var name := src[i + 2..j];
        if name == [] {
          PrependNothing(Desugar(src[i + 1..], dbgWidth, parse));
          return Ok([]), i + 1;
        }
        return Ok([Instr(if c == '[' then JZ else JNZ, DefaultArg, name)]), j;
      }
      var ins := PlainInstr(c, dbgWidth);
      var rep, j := ParseRepeat(src, i + 1);
      LexPlain(src, i, rep, j, dbgWidth, parse);
      var copies := PushCopies([], ins, rep);
      assert copies == Copies(ins, rep);
      return Ok(copies), j;
    }
    if c == '=' {
      var j := ScanWhile(src, i + 1, IsNumChar);
      LexAssign(src, i, j, dbgWidth, parse);
      var num := src[i + 1..j];
      if num == [] {
        PrependNothing(Desugar(src[j..], dbgWidth, parse));
        return Ok([]), j;
      }
      var v := parse(num);
      if v.Err? {
        return Err(v.error), j;
      }
      return Ok([Instr(CLEAR, 0, ""), Instr(INC, v.value, "")]), j;
    }
    if c == ':' {
      var j := ScanWhile(src, i + 1, IsIdent);
      LexAnnotation(src, i, j, dbgWidth, parse);
      PrependNothing(Desugar(src[j..], dbgWidth, parse));
      return Ok([]), j;
    }
    LexSkip(src, i, dbgWidth, parse);
    PrependNothing(Desugar(src[i + 1..], dbgWidth, parse));
    return Ok([]), i + 1;
  }

  /** desugar: one scan over `src` that skips white space and appends each
      token's instructions; the first literal error stops it. */
  method DesugarWith<E>(src: string, dbgWidth: int, parse: string -> Result<int, E>) returns (r: Result<seq<Instr>, E>)
    ensures r == Desugar(src, dbgWidth, parse)
  {
    var code: seq<Instr> := [];
    var i := 0;
    assert src[0..] == src;
    PrependNothing(Desugar(src, dbgWidth, parse));
    while i < |src|
      invariant 0 <= i <= |src|
      invariant Prepend(code, Desugar(src[i..], dbgWidth, parse)) == Desugar(src, dbgWidth, parse)
    {
      var w := ScanWhile(src, i, IsSpace);
      LexSkipRun(src, i, w, dbgWidth, parse);
      i := w;
      if i >= |src| {
        break;
      }
      var emit, next := LexAt(src, i, dbgWidth, parse);
      if emit.Err? {
        return Err(emit.error);
      }
      PrependAssoc(code, emit.value, Desugar(src[next..], dbgWidth, parse));
      code := code + emit.value;
      i := next;
    }
    assert src[i..] == [];
    assert code + [] == code;
    r := Ok(code);
  }

  // Properties of desugaring, token by token.

  /** An operator followed by `x` and a decimal run expands to that many copies. */
  lemma DesugarRepeat<E>(c: char, ds: string, rest: string, dbgWidth: int, parse: string -> Result<int, E>)
    requires IsOpChar(c) && ds != [] && forall k :: 0 <= k < |ds| ==> IsDigit(ds[k])
    requires rest == [] || !IsDigit(rest[0])
    ensures Desugar([c, 'x'] + ds + rest, dbgWidth, parse)
         == Prepend(Copies(PlainInstr(c, dbgWidth), DigitsValue(ds, 10)), Desugar(rest, dbgWidth, parse))
  {
    var t := [c, 'x'] + ds + rest;
    assert t[1..][1..] == ds + rest;
    SpanIs(ds + rest, IsDigit, |ds|);
    assert t[1..][1..1 + |ds|] == ds;
    assert t[2 + |ds|..] == rest;
    DesugarToken(t, Lexeme(Ok(Copies(PlainInstr(c, dbgWidth), DigitsValue(ds, 10))), 2 + |ds|), dbgWidth, parse);
  }

  /** An operator with no repeat suffix (and no label) emits one instruction. */
  lemma DesugarSingle<E>(c: char, rest: string, dbgWidth: int, parse: string -> Result<int, E>)
    requires IsOpChar(c)
    requires !(|rest| >= 2 && rest[0] == 'x' && IsDigit(rest[1]))
    requires (c == '[' || c == ']') ==> rest == [] || rest[0] != '@'
    ensures Desugar([c] + rest, dbgWidth, parse) == Prepend([PlainInstr(c, dbgWidth)], Desugar(rest, dbgWidth, parse))
  {
    var t := [c] + rest;
    assert t[1..] == rest;
    if rest != [] && rest[0] == 'x' {
      assert Span(rest[1..], IsDigit) == 0;
    }
    assert Copies(PlainInstr(c, dbgWidth), 1) == [PlainInstr(c, dbgWidth)];
    DesugarToken(t, Lexeme(Ok(Copies(PlainInstr(c, dbgWidth), 1)), 1), dbgWidth, parse);
  }

  /** A labeled bracket emits one jump that carries its label. */
  lemma DesugarLabeled<E>(c: char, name: string, rest: string, dbgWidth: int, parse: string -> Result<int, E>)
    requires c == '[' || c == ']'
    requires name != [] && forall k :: 0 <= k < |name| ==> IsIdent(name[k])
    requires rest == [] || !IsIdent(rest[0])
    ensures Desugar([c, '@'] + name + rest, dbgWidth, parse)
         == Prepend([Instr(if c == '[' then JZ else JNZ, DefaultArg, name)], Desugar(rest, dbgWidth, parse))
  {
    var t := [c, '@'] + name + rest;
    assert t[2..] == name + rest;
    SpanIs(name + rest, IsIdent, |name|);
    assert t[2..2 + |name|] == name;
    assert t[2 + |name|..] == rest;
    DesugarToken(t, Lexeme(Ok([Instr(if c == '[' then JZ else JNZ, DefaultArg, name)]), 2 + |name|), dbgWidth, parse);
  }

  /** A bracket followed by `@` and no name emits nothing: both characters
      are dropped. */
  lemma DesugarBareAt<E>(c: char, rest: string, dbgWidth: int, parse: string -> Result<int, E>)
    requires c == '[' || c == ']'
    requires rest == [] || !IsIdent(rest[0])
    ensures Desugar([c, '@'] + rest, dbgWidth, parse) == Desugar(rest, dbgWidth, parse)
  {
    var t := [c, '@'] + rest;
    assert t[2..] == rest;
    SpanIs(rest, IsIdent, 0);
    DesugarToken(t, Lexeme(Ok([]), 1), dbgWidth, parse);
    assert t[1..] == ['@'] + rest;
    DesugarSkipsOther('@', rest, dbgWidth, parse);
    PrependNothing(Desugar(rest, dbgWidth, parse));
  }

  /** `=` and a literal set the cell: a CLEAR and an INC by the literal's
      value, or the literal parser's error. */
  lemma DesugarAssign<E>(num: string, rest: string, dbgWidth: int, parse: string -> Result<int, E>)
    requires num != [] && forall k :: 0 <= k < |num| ==> IsNumChar(num[k])
    requires rest == [] || !IsNumChar(rest[0])
    ensures parse(num).Ok? ==>
      Desugar(['='] + num + rest, dbgWidth, parse)
      == Prepend([Instr(CLEAR, 0, ""), Instr(INC, parse(num).value, "")], Desugar(rest, dbgWidth, parse))
    ensures parse(num).Err? ==> Desugar(['='] + num + rest, dbgWidth, parse) == Err(parse(num).error)
  {
    var t := ['='] + num + rest;
    assert t[1..] == num + rest;
    SpanIs(num + rest, IsNumChar, |num|);
    assert t[1..1 + |num|] == num;
    assert t[1 + |num|..] == rest;
    var v := parse(num);
    if v.Ok? {
      DesugarToken(t, Lexeme(Ok([Instr(CLEAR, 0, ""), Instr(INC, v.value, "")]), 1 + |num|), dbgWidth, parse);
    } else {
      DesugarToken(t, Lexeme(Err(v.error), 1 + |num|), dbgWidth, parse);
    }
  }

  /** A `=` with no literal after it emits nothing. */
  lemma DesugarEmptyAssign<E>(rest: string, dbgWidth: int, parse: string -> Result<int, E>)
    requires rest == [] || !IsNumChar(rest[0])
    ensures Desugar(['='] + rest, dbgWidth, parse) == Desugar(rest, dbgWidth, parse)
  {
    var t := ['='] + rest;
    assert t[1..] == rest;
    SpanIs(rest, IsNumChar, 0);
    DesugarToken(t, Lexeme(Ok([]), 1), dbgWidth, parse);
    PrependNothing(Desugar(rest, dbgWidth, parse));
  }

  /** A `:` annotation and the identifier after it are dropped. */
  lemma DesugarAnnotation<E>(name: string, rest: string, dbgWidth: int, parse: string -> Result<int, E>)
    requires forall k :: 0 <= k < |name| ==> IsIdent(name[k])
    requires rest == [] || !IsIdent(rest[0])
    ensures Desugar([':'] + name + rest, dbgWidth, parse) == Desugar(rest, dbgWidth, parse)
  {
    var t := [':'] + name + rest;
    assert t[1..] == name + rest;
    SpanIs(name + rest, IsIdent, |name|);
    assert t[1 + |name|..] == rest;
    DesugarToken(t, Lexeme(Ok([]), 1 + |name|), dbgWidth, parse);
    PrependNothing(Desugar(rest, dbgWidth, parse));
  }

  /** Any other character, white space included, is skipped. */
  lemma DesugarSkipsOther<E>(c: char, rest: string, dbgWidth: int, parse: string -> Result<int, E>)
    requires !IsOpChar(c) && c != '=' && c != ':'
    ensures Desugar([c] + rest, dbgWidth, parse) == Desugar(rest, dbgWidth, parse)
  {
    var t := [c] + rest;
    assert t[1..] == rest;
    DesugarToken(t, Lexeme(Ok([]), 1), dbgWidth, parse);
    PrependNothing(Desugar(rest, dbgWidth, parse));
  }

  /** The shape of every instruction desugar builds with parse_number: only
      jumps carry labels, made of identifier characters; DBG carries the
      debug width, CLEAR zero, INC a byte, everything else 1. */
  predicate Desugared(ins: Instr, dbgWidth: int) {
    && (ins.tag != [] ==> (ins.op == JZ || ins.op == JNZ) && forall k :: 0 <= k < |ins.tag| ==> IsIdent(ins.tag[k]))
    && (ins.op == DBG ==> ins.arg == dbgWidth)
    && (ins.op == CLEAR ==> ins.arg == 0)
    && (ins.op == INC ==> 0 <= ins.arg <= 255)
    && (ins.op != DBG && ins.op != CLEAR && ins.op != INC ==> ins.arg == DefaultArg)
  }

  /** Every token read with parse_number is well shaped or a literal error. */
  lemma TokenShape(t: string, dbgWidth: int)
    requires t != []
    ensures var lx := Token(t, dbgWidth, ParseNumber);
      && (lx.emit.Ok? ==> forall k :: 0 <= k < |lx.emit.value| ==> Desugared(lx.emit.value[k], dbgWidth))
      && (lx.emit.Err? ==> lx.emit.error == OUT_OF_RANGE || lx.emit.error == EMPTY_NUMBER || lx.emit.error == INVALID_NUMBER_FORMAT)
  {
    var c := t[0];
    if (c == '[' || c == ']') && |t| >= 2 && t[1] == '@' {
      var n := Span(t[2..], IsIdent);
      if n > 0 {
        var name := t[2..2 + n];
        forall k | 0 <= k < |name| ensures IsIdent(name[k]) {
          assert name[k] == t[2..][k];
        }
      }
    }
  }

  /** Desugaring with parse_number yields only well-shaped instructions, and
      fails only with a literal error. */
  lemma {:induction false} DesugarShape(t: string, dbgWidth: int)
    ensures var r := Desugar(t, dbgWidth, ParseNumber);
      && (r.Ok? ==> forall k :: 0 <= k < |r.value| ==> Desugared(r.value[k], dbgWidth))
      && (r.Err? ==> r.error == OUT_OF_RANGE || r.error == EMPTY_NUMBER || r.error == INVALID_NUMBER_FORMAT)
    decreases |t|
  {
    if t != [] {
      var lx := Token(t, dbgWidth, ParseNumber);
      TokenShape(t, dbgWidth);
      DesugarShape(t[lx.len..], dbgWidth);
      DesugarToken(t, lx, dbgWidth, ParseNumber);
    }
  }
}
