/** The G-code packet encoder (tools/aprinter_encode.py).

    One text line becomes one binary packet:
      header byte (command type code << 4 | parameter count)
      ++ two extended header bytes (only for commands outside the small-command table)
      ++ one index byte per parameter (type code << 5 | letter offset)
      ++ the parameters' little-endian payloads.
    A file becomes the concatenation of its lines' packets followed by one 0xE0.

    The specification is a pair of functions: ParseLine (the syntax checks, in the order
    the source makes them) and Serialize (the packet layout). EncodeLine and EncodeFile
    are the source's loops, proved equal to them. DecodePacket is an independent reader
    of the wire format; the round-trip lemmas show the format is self-delimiting. */
module GcodeEncoder {
  import opened Wrappers

  type byte = x: int | 0 <= x < 0x100
  type u32 = x: int | 0 <= x < 0x1_0000_0000

  const TwoTo32: nat := 0x1_0000_0000
  const TwoTo64: nat := 0x1_0000_0000_0000_0000

  /** The byte marking the end of the stream, also the whole packet of an `E` line. */
  const Terminator: byte := 0xE0
  const MaxParams: nat := 14
  const CommandNumberLimit: nat := 2048
  /** Command type code of the three-byte (extended) header. */
  const ExtendedCode: nat := 15

  /** The single-precision narrowing of the source, `struct.pack('<f', float(text))`, which
      this model does not compute: for a text that `float()` accepts it gives the IEEE-754
      bit pattern, or None when the value is finite but too large for single precision
      (Python raises OverflowError there). */
  type Float32Pack = string -> Option<u32>

  datatype SyntaxError =
    | InvalidCommandLetter
    | InvalidCommandNumber
    | TooManyParameters
    | InvalidParameterLetter
    | InvalidCommandArgument

  /** A line fails with a GcodeSyntaxError, or with the OverflowError of `struct.pack`. */
  datatype EncodeError = Syntax(reason: SyntaxError) | FloatOverflow

  /** The message each GcodeSyntaxError carries. */
  function Reason(e: SyntaxError): string
  {
    match e
    case InvalidCommandLetter => "invalid command letter"
    case InvalidCommandNumber => "invalid command number"
    case TooManyParameters => "too many parameters"
    case InvalidParameterLetter => "invalid parameter letter"
    case InvalidCommandArgument => "invalid command argument"
  }

  // ---------------------------------------------------------------------------------
  // Characters and tokens

  /** Python 2 whitespace: space, \t, \n, \v, \f, \r. */
  predicate IsSpace(c: char) { c == ' ' || '\t' <= c <= '\r' }

  /** `_letter_ok`. */
  predicate LetterOk(c: char) { 'A' <= c <= 'Z' }

  function LetterOffset(c: char): (r: nat)
    requires LetterOk(c)
    ensures r < 26
  {
    c as int - 'A' as int
  }

  /** The line up to (not including) its first ';'. */
  function StripComment(line: string): (r: string)
    ensures r <= line
    ensures ';' !in r
    ensures |r| < |line| ==> line[|r|] == ';'
  {
    if line == [] || line[0] == ';' then [] else [line[0]] + StripComment(line[1..])
  }

  function TrimLeft(s: string): (r: string)
    ensures |r| <= |s| && r == s[|s| - |r|..]
    ensures forall i :: 0 <= i < |s| - |r| ==> IsSpace(s[i])
    ensures r != [] ==> !IsSpace(r[0])
  {
    if s != [] && IsSpace(s[0]) then TrimLeft(s[1..]) else s
  }

  function TrimRight(s: string): (r: string)
    ensures |r| <= |s| && r == s[..|r|]
    ensures forall i :: |r| <= i < |s| ==> IsSpace(s[i])
    ensures r != [] ==> !IsSpace(r[|r| - 1])
  {
    if s != [] && IsSpace(s[|s| - 1]) then TrimRight(s[..|s| - 1]) else s
  }

  /** `str.strip()`: empty exactly when the text is all whitespace. */
  function Strip(s: string): (r: string)
    ensures r == [] <==> forall i :: 0 <= i < |s| ==> IsSpace(s[i])
    ensures r != [] ==> !IsSpace(r[0]) && !IsSpace(r[|r| - 1])
  {
    TrimRight(TrimLeft(s))
  }

  /** A token of `str.split()`: non-empty, no whitespace. */
  predicate IsToken(t: string)
  {
    t != [] && forall i :: 0 <= i < |t| ==> !IsSpace(t[i])
  }

  predicate AllTokens(ts: seq<string>)
  {
    forall k :: 0 <= k < |ts| ==> IsToken(ts[k])
  }

  /** Length of the run of non-whitespace characters at the front of s. */
  function TokenEnd(s: string): (n: nat)
    ensures n <= |s|
    ensures forall i :: 0 <= i < n ==> !IsSpace(s[i])
    ensures n < |s| ==> IsSpace(s[n])
  {
    if s == [] || IsSpace(s[0]) then 0 else 1 + TokenEnd(s[1..])
  }

  /** `str.split()` without arguments: the maximal runs of non-whitespace, in order. */
  function Split(s: string): (r: seq<string>)
    ensures AllTokens(r)
    ensures s != [] && !IsSpace(s[0]) ==> r != [] && r[0][0] == s[0]
    decreases |s|
  {
    if s == [] then []
    else if IsSpace(s[0]) then Split(s[1..])
    else
      var n := TokenEnd(s);
      [s[..n]] + Split(s[n..])
  }

  /** The whitespace between the tokens of `s`, the text before the first one and after the last one included. */
  function Gaps(s: string): (ws: seq<string>)
    ensures |ws| == |Split(s)| + 1
    decreases |s|
  {
    if s == [] then [[]]
    else if IsSpace(s[0]) then
      var g := Gaps(s[1..]);
      [[s[0]] + g[0]] + g[1..]
    else [[]] + Gaps(s[TokenEnd(s)..])
  }

  predicate AllSpace(w: string)
  {
    forall m :: 0 <= m < |w| ==> IsSpace(w[m])
  }

  /** Separators of `str.split()`: all whitespace, and non-empty between two tokens. */
  predicate Separators(ws: seq<string>)
  {
    (forall k :: 0 <= k < |ws| ==> AllSpace(ws[k])) &&
    (forall k :: 0 < k < |ws| - 1 ==> ws[k] != [])
  }

  /** ws[0] + ts[0] + ws[1] + ts[1] + ... + ws[n]. */
  function Interleave(ws: seq<string>, ts: seq<string>): string
    requires |ws| == |ts| + 1
    decreases |ts|
  {
    if ts == [] then ws[0] else ws[0] + ts[0] + Interleave(ws[1..], ts[1..])
  }

  lemma InterleavePrefix(p: string, ws: seq<string>, ts: seq<string>)
    requires |ws| == |ts| + 1
    ensures Interleave([p + ws[0]] + ws[1..], ts) == p + Interleave(ws, ts)
  {
    var ws' := [p + ws[0]] + ws[1..];
    assert ws'[0] == p + ws[0] && ws'[1..] == ws[1..];
    if ts != [] {
      assert (p + ws[0]) + ts[0] + Interleave(ws[1..], ts[1..]) == p + (ws[0] + ts[0] + Interleave(ws[1..], ts[1..]));
    }
  }

  /**
    What `str.split()` means: the text is its tokens with whitespace separators
    between them, and a non-empty separator between any two tokens; together
    with AllTokens this makes the tokens the maximal non-whitespace runs, in order.
  */
  lemma SplitMeaning(s: string)
    ensures Separators(Gaps(s))
    ensures Interleave(Gaps(s), Split(s)) == s
  {
    GapsSeparate(s);
    SplitRejoins(s);
  }

  lemma {:induction false} GapsSeparate(s: string)
    ensures Separators(Gaps(s))
    decreases |s|
  {
    if s != [] && IsSpace(s[0]) {
      var g := Gaps(s[1..]);
      GapsSeparate(s[1..]);
      assert Gaps(s) == [[s[0]] + g[0]] + g[1..];
      assert AllSpace([s[0]] + g[0]);
      forall k | 0 < k < |Gaps(s)|
        ensures Gaps(s)[k] == g[k]
      {
      }
    } else if s != [] {
      var t := s[TokenEnd(s)..];
      GapsSeparate(t);
      assert Gaps(s) == [[]] + Gaps(t);
      if Split(t) != [] {
        assert t != [] && IsSpace(t[0]);
        assert Gaps(t)[0] != [];
      }
      forall k | 0 < k < |Gaps(s)|
        ensures Gaps(s)[k] == Gaps(t)[k - 1]
      {
      }
    }
  }

  lemma {:induction false} SplitRejoins(s: string)
    ensures Interleave(Gaps(s), Split(s)) == s
    decreases |s|
  {
    if s != [] && IsSpace(s[0]) {
      var g := Gaps(s[1..]);
      SplitRejoins(s[1..]);
      InterleavePrefix([s[0]], g, Split(s[1..]));
      assert Gaps(s) == [[s[0]] + g[0]] + g[1..];
      assert [s[0]] + s[1..] == s;
    } else if s != [] {
      var n := TokenEnd(s);
      var t := s[n..];
      SplitRejoins(t);
      assert Gaps(s) == [[]] + Gaps(t) && Gaps(s)[1..] == Gaps(t);
      assert Split(s) == [s[..n]] + Split(t) && Split(s)[1..] == Split(t);
      assert s[..n] + t == s;
      assert Interleave(Gaps(s), Split(s)) == [] + s[..n] + Interleave(Gaps(t), Split(t));
    }
  }

  /** The tokens `encode_line` works on. */
  function Tokens(line: string): seq<string>
  {
    Split(Strip(StripComment(line)))
  }

  // ---------------------------------------------------------------------------------
  // Numbers: Python's int() and float() on a token

  predicate IsDigit(c: char) { '0' <= c <= '9' }

  predicate AllDigits(s: string)
  {
    forall i :: 0 <= i < |s| ==> IsDigit(s[i])
  }

  function DigitsValue(s: string): nat
    requires AllDigits(s)
  {
    if s == [] then 0 else DigitsValue(s[..|s| - 1]) * 10 + (s[|s| - 1] as int - '0' as int)
  }

  /** `int(s)` on a text without whitespace: an optional sign followed by decimal digits. */
  function ParseInt(s: string): Option<int>
  {
    var body := if s != [] && (s[0] == '+' || s[0] == '-') then s[1..] else s;
    if body == [] || !AllDigits(body) then None
    else
      var magnitude: int := DigitsValue(body);
      Some(if s[0] == '-' then -magnitude else magnitude)
  }

  /** The decimal digits of n, as `str.format` writes them. */
  function DecimalString(n: nat): (r: string)
    ensures r != [] && AllDigits(r)
  {
    var last := [('0' as int + n % 10) as char];
    if n < 10 then last else DecimalString(n / 10) + last
  }

  lemma {:induction false} DecimalStringValue(n: nat)
    ensures DigitsValue(DecimalString(n)) == n
  {
    var s := DecimalString(n);
    assert s[..|s| - 1] == if n < 10 then [] else DecimalString(n / 10);
    if n >= 10 {
      DecimalStringValue(n / 10);
    }
  }

  /** `int()` reads back what DecimalString writes. */
  lemma DecimalStringParses(n: nat)
    ensures ParseInt(DecimalString(n)) == Some(n)
  {
    DecimalStringValue(n);
  }

  /** End of the run of decimal digits that starts at position i. */
  function DigitRun(s: string, i: nat): (j: nat)
    requires i <= |s|
    ensures i <= j <= |s|
    ensures forall k :: i <= k < j ==> IsDigit(s[k])
    ensures j < |s| ==> !IsDigit(s[j])
    decreases |s| - i
  {
    if i < |s| && IsDigit(s[i]) then DigitRun(s, i + 1) else i
  }

  /** Empty, or `e`/`E`, an optional sign and at least one digit. */
  predicate IsExponent(e: string)
  {
    e == [] ||
    ((e[0] == 'e' || e[0] == 'E') &&
     var d := if |e| > 1 && (e[1] == '+' || e[1] == '-') then e[2..] else e[1..];
     d != [] && AllDigits(d))
  }

  /** digits [. digits] or . digits, with at least one digit, then an optional exponent. */
  predicate IsDecimalLiteral(t: string)
  {
    var a := DigitRun(t, 0);
    var hasPoint := a < |t| && t[a] == '.';
    var j := if hasPoint then DigitRun(t, a + 1) else a;
    var fractionDigits := if hasPoint then j - (a + 1) else 0;
    a + fractionDigits > 0 && IsExponent(t[j..])
  }

  function LowerAscii(c: char): char
  {
    if 'A' <= c <= 'Z' then (c as int + 32) as char else c
  }

  /** t equals the lower-case word once its ASCII capitals are lowered. */
  predicate SameLower(t: string, word: string)
  {
    |t| == |word| && forall i :: 0 <= i < |t| ==> LowerAscii(t[i]) == word[i]
  }

  /** `inf`, `infinity` or `nan`, in any case. */
  predicate IsSpecialFloat(t: string)
  {
    SameLower(t, "inf") || SameLower(t, "infinity") || SameLower(t, "nan")
  }

  /** The texts Python 2.7's `float()` accepts (the token holds no whitespace). */
  predicate IsFloatLiteral(s: string)
  {
    var t := if s != [] && (s[0] == '+' || s[0] == '-') then s[1..] else s;
    IsDecimalLiteral(t) || IsSpecialFloat(t)
  }

  lemma {:induction false} DigitRunToEnd(s: string, i: nat)
    requires i <= |s|
    requires forall k :: i <= k < |s| ==> IsDigit(s[k])
    ensures DigitRun(s, i) == |s|
    decreases |s| - i
  {
    if i < |s| {
      DigitRunToEnd(s, i + 1);
    }
  }

  /** Every text `int()` accepts is also accepted by `float()`; this is how a negative
      integer ends up encoded as a real. */
  lemma IntegerLiteralIsFloatLiteral(s: string)
    requires ParseInt(s).Some?
    ensures IsFloatLiteral(s)
  {
    var t := if s != [] && (s[0] == '+' || s[0] == '-') then s[1..] else s;
    DigitRunToEnd(t, 0);
    assert t[|t|..] == [];
  }

  // ---------------------------------------------------------------------------------
  // Parameters

  /** A parameter value: U32 below 2^32, U64 in [2^32, 2^64), Real the single-precision bit pattern. */
  datatype Value = Void | U32(n: nat) | U64(n: nat) | Real(bits: nat)

  datatype Param = Param(letter: char, value: Value)

  predicate ValueInRange(v: Value)
  {
    (v.U32? ==> v.n < TwoTo32) && (v.U64? ==> TwoTo32 <= v.n < TwoTo64) && (v.Real? ==> v.bits < TwoTo32)
  }

  predicate ValidParam(p: Param)
  {
    LetterOk(p.letter) && ValueInRange(p.value)
  }

  /** The type code carried in the top three bits of the index byte. */
  function TypeCode(v: Value): nat
  {
    match v
    case Real(_) => 1
    case U32(_) => 3
    case U64(_) => 4
    case Void => 5
  }

  /** The value of a parameter's text (what follows its letter), classified in the
      source's order: empty, integer in [0, 2^64), anything `float()` accepts. */
  function ParseValue(text: string, pack: Float32Pack): (r: Result<Value, EncodeError>)
    ensures r.Ok? ==> ValueInRange(r.value)
  {
    if text == [] then Ok(Void)
    else
      var i := ParseInt(text);
      if i.Some? && 0 <= i.value < TwoTo64 then
        if i.value < TwoTo32 then Ok(U32(i.value)) else Ok(U64(i.value))
      else if !IsFloatLiteral(text) then Err(Syntax(InvalidCommandArgument))
      else
        match pack(text)
        case None => Err(FloatOverflow)
        case Some(bits) => Ok(Real(bits))
  }

  function ParseParam(token: string, pack: Float32Pack): (r: Result<Param, EncodeError>)
    requires token != []
    ensures r.Ok? ==> ValidParam(r.value) && r.value.letter == token[0]
  {
    if !LetterOk(token[0]) then Err(Syntax(InvalidParameterLetter))
    else
      var v :- ParseValue(token[1..], pack);
      Ok(Param(token[0], v))
  }

  /** The parameters in input order; the first failing token decides the error. */
  function ParseParams(tokens: seq<string>, pack: Float32Pack): (r: Result<seq<Param>, EncodeError>)
    requires AllTokens(tokens)
    ensures r.Ok? ==> |r.value| == |tokens|
    ensures r.Ok? ==> forall k :: 0 <= k < |tokens| ==> ValidParam(r.value[k]) && r.value[k].letter == tokens[k][0]
    ensures r.Err? ==> r.error in {Syntax(InvalidParameterLetter), Syntax(InvalidCommandArgument), FloatOverflow}
  {
    if tokens == [] then Ok([])
    else
      var p :- ParseParam(tokens[0], pack);
      var ps :- ParseParams(tokens[1..], pack);
      Ok([p] + ps)
  }

  lemma {:induction false} ParseParamsSnoc(tokens: seq<string>, i: nat, pack: Float32Pack, ps: seq<Param>)
    requires AllTokens(tokens) && i < |tokens|
    requires ParseParams(tokens[..i], pack) == Ok(ps)
    ensures ParseParam(tokens[i], pack).Ok? ==>
              ParseParams(tokens[..i + 1], pack) == Ok(ps + [ParseParam(tokens[i], pack).value])
    ensures ParseParam(tokens[i], pack).Err? ==>
              ParseParams(tokens, pack) == Err(ParseParam(tokens[i], pack).error)
  {
    if i > 0 {
      assert tokens[..i][1..] == tokens[1..][..i - 1];
      assert tokens[..i + 1][1..] == tokens[1..][..i];
      assert tokens[1..][i - 1] == tokens[i];
      var p := ParseParam(tokens[0], pack).value;
      assert ps == [p] + ps[1..];
      ParseParamsSnoc(tokens[1..], i - 1, pack, ps[1..]);
      if ParseParam(tokens[i], pack).Ok? {
        var q := ParseParam(tokens[i], pack).value;
        assert ParseParams(tokens[1..][..i], pack) == Ok(ps[1..] + [q]);
        assert ParseParams(tokens[..i + 1], pack) == Ok([p] + (ps[1..] + [q]));
        assert [p] + (ps[1..] + [q]) == ps + [q];
      }
    } else {
      assert tokens[..0] == [] && tokens[..1] == [tokens[0]];
      assert ParseParams([tokens[0]][1..], pack) == Ok([]);
      if ParseParam(tokens[0], pack).Ok? {
        var p := ParseParam(tokens[0], pack).value;
        assert [p] + [] == [p];
        assert ps == [] && ps + [p] == [p];
        assert ParseParams([tokens[0]], pack) == Ok([p]);
      }
    }
  }

  // ---------------------------------------------------------------------------------
  // Lines

  /** What a line means: nothing, the `E` escape, or a command with its parameters. */
  datatype Line = Blank | End | Command(letter: char, number: nat, params: seq<Param>)

  predicate WellFormed(l: Line)
  {
    l.Command? ==>
      LetterOk(l.letter) && l.number < CommandNumberLimit && |l.params| <= MaxParams &&
      forall k :: 0 <= k < |l.params| ==> ValidParam(l.params[k])
  }

  /** The checks of `encode_line` after the `E` escape, in its order: command letter,
      command number, parameter count, then each parameter in turn. */
  function ParseCommand(parts: seq<string>, pack: Float32Pack): (r: Result<Line, EncodeError>)
    requires parts != [] && AllTokens(parts)
    ensures r.Ok? ==> WellFormed(r.value) && !r.value.Blank?
  {
    var head := parts[0];
    if head[0] == 'E' then Ok(End)
    else if !LetterOk(head[0]) then Err(Syntax(InvalidCommandLetter))
    else
      var n := ParseInt(head[1..]);
      if n.None? || !(0 <= n.value < CommandNumberLimit) then Err(Syntax(InvalidCommandNumber))
      else if |parts| - 1 > MaxParams then Err(Syntax(TooManyParameters))
      else
        var ps :- ParseParams(parts[1..], pack);
        Ok(Command(head[0], n.value, ps))
  }

  /** What `encode_line` makes of a line: the comment and surrounding whitespace go, an
      empty remainder is a blank line, anything else is split into tokens and checked. */
  function ParseLine(line: string, pack: Float32Pack): (r: Result<Line, EncodeError>)
    ensures r.Ok? ==> WellFormed(r.value)
  {
    var text := Strip(StripComment(line));
    if text == [] then Ok(Blank) else ParseCommand(Split(text), pack)
  }

  // ---------------------------------------------------------------------------------
  // Packet layout

  /** `_SmallCommands`: the commands with a one-byte header and their type codes. */
  const SmallCommands: map<(char, nat), nat> := map[('G', 0) := 1, ('G', 1) := 2, ('G', 92) := 3]

  lemma SmallCommandCodes()
    ensures forall k :: k in SmallCommands ==> 1 <= SmallCommands[k] <= 3
  {
  }

  function Pow256(n: nat): (r: nat)
    ensures r > 0
  {
    if n == 0 then 1 else 256 * Pow256(n - 1)
  }

  lemma PayloadWidths()
    ensures Pow256(4) == TwoTo32 && Pow256(8) == TwoTo64
  {
    assert Pow256(4) == 256 * Pow256(3) == 256 * 256 * Pow256(2);
    assert Pow256(8) == 256 * 256 * 256 * 256 * Pow256(4);
  }

  /** `struct.pack('<I')` / `struct.pack('<Q')`: v in n bytes, least significant first. */
  function LittleEndian(v: nat, n: nat): (r: seq<byte>)
    requires v < Pow256(n)
    ensures |r| == n
  {
    if n == 0 then [] else [v % 256] + LittleEndian(v / 256, n - 1)
  }

  /** Reads back a little-endian number. */
  function LittleEndianValue(bs: seq<byte>): nat
  {
    if bs == [] then 0 else bs[0] + 256 * LittleEndianValue(bs[1..])
  }

  lemma {:induction false} LittleEndianRoundTrip(v: nat, n: nat)
    requires v < Pow256(n)
    ensures LittleEndianValue(LittleEndian(v, n)) == v
  {
    if n > 0 {
      LittleEndianRoundTrip(v / 256, n - 1);
    }
  }

  function Payload(v: Value): (r: seq<byte>)
    requires ValueInRange(v)
  {
    PayloadWidths();
    match v
    case Void => []
    case U32(n) => LittleEndian(n, 4)
    case U64(n) => LittleEndian(n, 8)
    case Real(bits) => LittleEndian(bits, 4)
  }

  /** `(type_code << 5) + (ord(letter) - ord('A'))`. */
  function IndexByte(p: Param): byte
    requires ValidParam(p)
  {
    TypeCode(p.value) * 32 + LetterOffset(p.letter)
  }

  predicate AllValid(ps: seq<Param>)
  {
    forall k :: 0 <= k < |ps| ==> ValidParam(ps[k])
  }

  function IndexBytes(ps: seq<Param>): seq<byte>
    requires AllValid(ps)
  {
    if ps == [] then [] else [IndexByte(ps[0])] + IndexBytes(ps[1..])
  }

  function Payloads(ps: seq<Param>): seq<byte>
    requires AllValid(ps)
  {
    if ps == [] then [] else Payload(ps[0].value) + Payloads(ps[1..])
  }

  lemma {:induction false} IndexBytesSnoc(ps: seq<Param>, p: Param)
    requires AllValid(ps) && ValidParam(p)
    ensures IndexBytes(ps + [p]) == IndexBytes(ps) + [IndexByte(p)]
    ensures Payloads(ps + [p]) == Payloads(ps) + Payload(p.value)
  {
    IndexBytesOnlySnoc(ps, p);
    PayloadsSnoc(ps, p);
  }

  lemma {:induction false} IndexBytesOnlySnoc(ps: seq<Param>, p: Param)
    requires AllValid(ps) && ValidParam(p)
    ensures IndexBytes(ps + [p]) == IndexBytes(ps) + [IndexByte(p)]
  {
    if ps != [] {
      assert (ps + [p])[1..] == ps[1..] + [p];
      IndexBytesOnlySnoc(ps[1..], p);
    }
  }

  lemma {:induction false} PayloadsSnoc(ps: seq<Param>, p: Param)
    requires AllValid(ps) && ValidParam(p)
    ensures Payloads(ps + [p]) == Payloads(ps) + Payload(p.value)
  {
    if ps != [] {
      assert (ps + [p])[1..] == ps[1..] + [p];
      PayloadsSnoc(ps[1..], p);
    }
  }

  /** The header byte and, outside the small-command table, the two extended bytes. */
  function Header(letter: char, number: nat, count: nat): seq<byte>
    requires LetterOk(letter) && number < CommandNumberLimit && count <= MaxParams
  {
    if (letter, number) in SmallCommands then
      [SmallCommands[(letter, number)] * 16 + count]
    else
      [ExtendedCode * 16 + count, LetterOffset(letter) * 8 + number / 256, number % 256]
  }

  /** The packet assembled from a line: header ++ index bytes ++ payloads. */
  function Serialize(l: Line): seq<byte>
    requires WellFormed(l)
  {
    match l
    case Blank => []
    case End => [Terminator]
    case Command(letter, number, ps) =>
      Header(letter, number, |ps|) + IndexBytes(ps) + Payloads(ps)
  }

  /** The bytes `encode_line` returns, or the error it raises. */
  function LineEncoding(line: string, pack: Float32Pack): Result<seq<byte>, EncodeError>
  {
    var l :- ParseLine(line, pack);
    Ok(Serialize(l))
  }

  // ---------------------------------------------------------------------------------
  // encode_line

  /** The body of the parameter loop of `encode_line`: the index byte and the payload of
      one parameter token, found by trying an integer first and a real second. */
  method EncodeParam(part: string, pack: Float32Pack) returns (r: Result<(byte, seq<byte>), EncodeError>)
    requires part != []
    ensures ParseParam(part, pack).Err? ==> r == Err(ParseParam(part, pack).error)
    ensures ParseParam(part, pack).Ok? ==>
              var p := ParseParam(part, pack).value;
              r == Ok((IndexByte(p), Payload(p.value)))
  {
    var paramLetter := part[0];
    if !LetterOk(paramLetter) {
      return Err(Syntax(InvalidParameterLetter));
    }
    var paramValue := part[1..];
    var typeCode: nat;
    var paramPayload: seq<byte>;
    PayloadWidths();
    if paramValue == [] {
      typeCode, paramPayload := 5, [];
    } else {
      var integerValue := ParseInt(paramValue);
      if integerValue.Some? && 0 <= integerValue.value < TwoTo64 {
        if integerValue.value < TwoTo32 {
          typeCode, paramPayload := 3, LittleEndian(integerValue.value, 4);
        } else {
          typeCode, paramPayload := 4, LittleEndian(integerValue.value, 8);
        }
      } else {
        if !IsFloatLiteral(paramValue) {
          return Err(Syntax(InvalidCommandArgument));
        }
        var realBits := pack(paramValue);
        if realBits.None? {
          return Err(FloatOverflow);
        }
        typeCode, paramPayload := 1, LittleEndian(realBits.value, 4);
      }
    }
    return Ok((typeCode * 32 + LetterOffset(paramLetter), paramPayload));
  }

  /** The header part of `encode_line`: a small-command type code and no extra bytes,
      or type code 15 and the letter offset and 11-bit number in two more bytes. */
  method PacketHeader(cmdLetter: char, cmdNumber: nat, numParams: nat) returns (h: seq<byte>)
    requires LetterOk(cmdLetter) && cmdNumber < CommandNumberLimit && numParams <= MaxParams
    ensures h == Header(cmdLetter, cmdNumber, numParams)
  {
    var commandTypeCode: nat;
    var packetHeaderLarge: seq<byte>;
    SmallCommandCodes();
    if (cmdLetter, cmdNumber) in SmallCommands {
      commandTypeCode, packetHeaderLarge := SmallCommands[(cmdLetter, cmdNumber)], [];
    } else {
      commandTypeCode := ExtendedCode;
      packetHeaderLarge := [LetterOffset(cmdLetter) * 8 + cmdNumber / 256, cmdNumber % 256];
    }
    h := [commandTypeCode * 16 + numParams] + packetHeaderLarge;
  }

  /** Once the command checks pass, a line encodes as its parameter list does. */
  lemma CheckedLineEncoding(line: string, pack: Float32Pack, number: nat)
    requires Tokens(line) != [] && Tokens(line)[0][0] != 'E' && LetterOk(Tokens(line)[0][0])
    requires ParseInt(Tokens(line)[0][1..]) == Some(number) && number < CommandNumberLimit
    requires |Tokens(line)| - 1 <= MaxParams
    ensures LineEncoding(line, pack) ==
      match ParseParams(Tokens(line)[1..], pack)
      case Err(e) => Err(e)
      case Ok(ps) => Ok(Serialize(Command(Tokens(line)[0][0], number, ps)))
  {
    var parts := Tokens(line);
    assert Strip(StripComment(line)) != [];
    CheckedCommand(parts, pack, number);
  }

  lemma CheckedCommand(parts: seq<string>, pack: Float32Pack, number: nat)
    requires parts != [] && AllTokens(parts) && parts[0][0] != 'E' && LetterOk(parts[0][0])
    requires ParseInt(parts[0][1..]) == Some(number) && number < CommandNumberLimit
    requires |parts| - 1 <= MaxParams
    ensures ParseCommand(parts, pack) ==
      match ParseParams(parts[1..], pack)
      case Err(e) => Err(e)
      case Ok(ps) => Ok(Command(parts[0][0], number, ps))
  {
  }

  /** The parameter loop of `encode_line`: each token's index byte and payload are
      appended in turn, and the first failing token ends the line. */
  method EncodeParams(rest: seq<string>, pack: Float32Pack) returns (r: Result<(seq<byte>, seq<byte>), EncodeError>)
    requires AllTokens(rest)
    ensures ParseParams(rest, pack).Err? ==> r == Err(ParseParams(rest, pack).error)
    ensures ParseParams(rest, pack).Ok? ==>
              var ps := ParseParams(rest, pack).value;
              AllValid(ps) && r == Ok((IndexBytes(ps), Payloads(ps)))
  {
    var packetIndex: seq<byte> := [];
    var packetPayload: seq<byte> := [];
    ghost var params: seq<Param> := [];
    assert rest[..0] == [];
    for i := 0 to |rest|
      invariant ParseParams(rest[..i], pack) == Ok(params) && |params| == i
      invariant AllValid(params)
      invariant packetIndex == IndexBytes(params) && packetPayload == Payloads(params)
    {
      var part := rest[i];
      ParseParamsSnoc(rest, i, pack, params);
      var encoded := EncodeParam(part, pack);
      if encoded.Err? {
        return Err(encoded.error);
      }
      var (indexByte, paramPayload) := encoded.value;
      ghost var p := ParseParam(part, pack).value;
      IndexBytesSnoc(params, p);
      packetIndex := packetIndex + [indexByte];
      packetPayload := packetPayload + paramPayload;
      params := params + [p];
    }
    assert rest[..|rest|] == rest;
    return Ok((packetIndex, packetPayload));
  }

  /** `encode_line`: the parameter loop appends to the index and payload strings, and
      the header is computed once the parameters are done. */
  method EncodeLine(line: string, pack: Float32Pack) returns (r: Result<seq<byte>, EncodeError>)
    ensures r == LineEncoding(line, pack)
  {
    var text := StripComment(line);
    text := Strip(text);
    if |text| == 0 {
      return Ok([]);
    }
    var parts := Split(text);
    var cmdLetter := parts[0][0];
    if cmdLetter == 'E' {
      return Ok([Terminator]);
    }
    if !LetterOk(cmdLetter) {
      return Err(Syntax(InvalidCommandLetter));
    }
    var parsedNumber := ParseInt(parts[0][1..]);
    if parsedNumber.None? || !(0 <= parsedNumber.value < CommandNumberLimit) {
      return Err(Syntax(InvalidCommandNumber));
    }
    var cmdNumber: nat := parsedNumber.value;
    var numParams := |parts| - 1;
    if numParams > MaxParams {
      return Err(Syntax(TooManyParameters));
    }
    var rest := parts[1..];
    CheckedLineEncoding(line, pack, cmdNumber);
    assert parts == Tokens(line) && rest == Tokens(line)[1..];
    var encoded := EncodeParams(rest, pack);
    if encoded.Err? {
      return Err(encoded.error);
    }
    var (packetIndex, packetPayload) := encoded.value;
    var packetHeader := PacketHeader(cmdLetter, cmdNumber, numParams);
    ghost var ps := ParseParams(rest, pack).value;
    assert LineEncoding(line, pack) == Ok(Serialize(Command(cmdLetter, cmdNumber, ps)));
    assert Serialize(Command(cmdLetter, cmdNumber, ps)) == packetHeader + packetIndex + packetPayload;
    return Ok(packetHeader + packetIndex + packetPayload);
  }

  // ---------------------------------------------------------------------------------
  // What encode_line promises

  lemma SerializeNonEmpty(l: Line)
    requires WellFormed(l) && !l.Blank?
    ensures Serialize(l) != []
  {
    if l.Command? {
      HeaderRoundTrip(l.letter, l.number, |l.params|, []);
    }
  }

  lemma ParsesBlank(line: string, pack: Float32Pack)
    ensures ParseLine(line, pack) == Ok(Blank) <==> Strip(StripComment(line)) == []
  {
  }

  /** A line is dropped (no packet at all) exactly when nothing but whitespace precedes its
      first ';'. */
  lemma BlankLine(line: string, pack: Float32Pack)
    ensures LineEncoding(line, pack) == Ok([]) <==>
            forall i :: 0 <= i < |StripComment(line)| ==> IsSpace(StripComment(line)[i])
  {
    ParsesBlank(line, pack);
    var r := ParseLine(line, pack);
    if r.Ok? && !r.value.Blank? {
      SerializeNonEmpty(r.value);
    }
  }

  /** A line whose first token starts with 'E' becomes the lone terminator byte, whatever
      follows; no other line does. */
  lemma EscapeLine(line: string, pack: Float32Pack)
    ensures LineEncoding(line, pack) == Ok([Terminator]) <==> Tokens(line) != [] && Tokens(line)[0][0] == 'E'
  {
    var r := ParseLine(line, pack);
    if r.Ok? && r.value.Command? {
      var l := r.value;
      HeaderRoundTrip(l.letter, l.number, |l.params|, []);
      assert Serialize(l)[0] == Header(l.letter, l.number, |l.params|)[0];
    }
  }

  /** The check on the command number: `int()` of the rest of the first token, in [0, 2048). */
  predicate NumberOk(head: string)
    requires head != []
  {
    var n := ParseInt(head[1..]);
    n.Some? && 0 <= n.value < CommandNumberLimit
  }

  lemma CommandErrors(parts: seq<string>, pack: Float32Pack)
    requires parts != [] && AllTokens(parts) && parts[0][0] != 'E'
    ensures var head := parts[0]; var r := ParseCommand(parts, pack);
      (r == Err(Syntax(InvalidCommandLetter)) <==> !LetterOk(head[0])) &&
      (r == Err(Syntax(InvalidCommandNumber)) <==> LetterOk(head[0]) && !NumberOk(head)) &&
      (r == Err(Syntax(TooManyParameters)) <==> LetterOk(head[0]) && NumberOk(head) && |parts| - 1 > MaxParams) &&
      (LetterOk(head[0]) && NumberOk(head) && |parts| - 1 <= MaxParams ==>
         (r.Ok? <==> ParseParams(parts[1..], pack).Ok?) &&
         (r.Err? ==> r.error == ParseParams(parts[1..], pack).error))
  {
  }

  /** The command checks come in the source's order, each error exactly when the earlier
      checks pass and its own fails; after them the line fails exactly as its parameter list
      does. */
  lemma CommandChecks(line: string, pack: Float32Pack)
    requires Tokens(line) != [] && Tokens(line)[0][0] != 'E'
    ensures var head := Tokens(line)[0];
      (LineEncoding(line, pack) == Err(Syntax(InvalidCommandLetter)) <==> !LetterOk(head[0])) &&
      (LineEncoding(line, pack) == Err(Syntax(InvalidCommandNumber)) <==> LetterOk(head[0]) && !NumberOk(head)) &&
      (LineEncoding(line, pack) == Err(Syntax(TooManyParameters)) <==>
         LetterOk(head[0]) && NumberOk(head) && |Tokens(line)| - 1 > MaxParams)
    ensures var head := Tokens(line)[0];
      LetterOk(head[0]) && NumberOk(head) && |Tokens(line)| - 1 <= MaxParams ==>
        (LineEncoding(line, pack).Ok? <==> ParseParams(Tokens(line)[1..], pack).Ok?) &&
        (LineEncoding(line, pack).Err? ==> LineEncoding(line, pack).error == ParseParams(Tokens(line)[1..], pack).error)
  {
    assert Strip(StripComment(line)) != [];
    CommandErrors(Tokens(line), pack);
  }

  /** The index byte carries the type code in its top three bits and the letter offset in
      its low five; each index byte belongs to the parameter in the same position. */
  lemma {:induction false} IndexBytesLayout(ps: seq<Param>)
    requires AllValid(ps)
    ensures |IndexBytes(ps)| == |ps|
    ensures forall k :: 0 <= k < |ps| ==>
              IndexBytes(ps)[k] / 32 == TypeCode(ps[k].value) && IndexBytes(ps)[k] % 32 == LetterOffset(ps[k].letter)
  {
    if ps != [] {
      AllValidTail(ps);
      IndexBytesLayout(ps[1..]);
      forall k | 0 <= k < |ps|
        ensures IndexBytes(ps)[k] / 32 == TypeCode(ps[k].value) && IndexBytes(ps)[k] % 32 == LetterOffset(ps[k].letter)
      {
        if k > 0 {
          assert IndexBytes(ps)[k] == IndexBytes(ps[1..])[k - 1];
          assert ps[k] == ps[1..][k - 1];
        }
      }
    }
  }

  /** How a parameter's text is classified: an integer in [0, 2^32) is a four-byte
      unsigned, one in [2^32, 2^64) an eight-byte unsigned, any other text `float()`
      accepts (negative and too-large integers included) a real, and the rest an invalid
      argument. */
  lemma ClassifyValue(text: string, pack: Float32Pack)
    ensures text == [] ==> ParseValue(text, pack) == Ok(Void)
    ensures forall n :: ParseInt(text) == Some(n) && 0 <= n < TwoTo32 ==> ParseValue(text, pack) == Ok(U32(n))
    ensures forall n :: ParseInt(text) == Some(n) && TwoTo32 <= n < TwoTo64 ==> ParseValue(text, pack) == Ok(U64(n))
    ensures forall n :: ParseInt(text) == Some(n) && (n < 0 || TwoTo64 <= n) ==>
              ParseValue(text, pack) == if pack(text).None? then Err(FloatOverflow) else Ok(Real(pack(text).value))
    ensures ParseValue(text, pack) == Err(Syntax(InvalidCommandArgument)) <==> text != [] && !IsFloatLiteral(text)
    ensures text != [] && IsFloatLiteral(text) && !(ParseInt(text).Some? && 0 <= ParseInt(text).value < TwoTo64) ==>
              ParseValue(text, pack) == if pack(text).None? then Err(FloatOverflow) else Ok(Real(pack(text).value))
  {
    if ParseInt(text).Some? {
      IntegerLiteralIsFloatLiteral(text);
    }
  }

  /** An unsigned payload is the number itself, little-endian, in four or eight bytes. */
  lemma IntegerPayload(v: Value)
    requires ValueInRange(v) && (v.U32? || v.U64?)
    ensures |Payload(v)| == if v.U32? then 4 else 8
    ensures LittleEndianValue(Payload(v)) == v.n
  {
    PayloadWidths();
    if v.U32? {
      LittleEndianRoundTrip(v.n, 4);
    } else {
      LittleEndianRoundTrip(v.n, 8);
    }
  }

  /** `G1 X10`: a small command, one unsigned parameter. */
  lemma SmallCommandExample(pack: Float32Pack)
    ensures ParseCommand(["G1", "X10"], pack) == Ok(Command('G', 1, [Param('X', U32(10))]))
    ensures Serialize(Command('G', 1, [Param('X', U32(10))])) == [0x21, 0x77, 0x0A, 0x00, 0x00, 0x00]
  {
    assert "G1"[1..] == "1" && ParseInt("1") == Some(1);
    assert ["G1", "X10"][1..] == ["X10"];
    assert "X10"[1..] == "10" && "10"[..1] == "1";
    assert DigitsValue("10") == 10;
    assert ParseValue("10", pack) == Ok(U32(10));
    assert ParseParam("X10", pack) == Ok(Param('X', U32(10)));
    assert ["X10"][1..] == [] && ParseParams([], pack) == Ok([]);
    assert [Param('X', U32(10))] + [] == [Param('X', U32(10))];
  }

  /** `G2 X1`: a command outside the small table gets the three-byte header. */
  lemma ExtendedCommandExample(pack: Float32Pack)
    ensures ParseCommand(["G2", "X1"], pack) == Ok(Command('G', 2, [Param('X', U32(1))]))
    ensures Serialize(Command('G', 2, [Param('X', U32(1))])) == [0xF1, 0x30, 0x02, 0x77, 0x01, 0x00, 0x00, 0x00]
  {
    assert "G2"[1..] == "2" && ParseInt("2") == Some(2);
    assert ["G2", "X1"][1..] == ["X1"];
    assert "X1"[1..] == "1" && ParseInt("1") == Some(1);
    assert ParseValue("1", pack) == Ok(U32(1));
    assert ParseParam("X1", pack) == Ok(Param('X', U32(1)));
    assert ["X1"][1..] == [] && ParseParams([], pack) == Ok([]);
    assert [Param('X', U32(1))] + [] == [Param('X', U32(1))];
  }

  // ---------------------------------------------------------------------------------
  // encode_file

  /** `encode_file` reports a syntax error with its 1-based line number; the OverflowError
      of `struct.pack` is not caught there and escapes without one. */
  datatype FileError = LineError(lineNumber: nat, reason: SyntaxError) | PackOverflow

  /** What `encode_file` leaves in the output file, and the error it raised if any. */
  datatype FileOutcome = FileOutcome(written: seq<byte>, error: Option<FileError>)

  /** The text of the re-raised exception. */
  function ErrorMessage(e: FileError): string
  {
    match e
    case LineError(n, reason) => "line " + DecimalString(n) + ": " + Reason(reason)
    case PackOverflow => "float too large to pack with f format"
  }

  /** f applied to each line, in order. */
  function MapLines(lines: seq<string>, f: string -> Result<seq<byte>, EncodeError>): (rs: seq<Result<seq<byte>, EncodeError>>)
    ensures |rs| == |lines|
  {
    if lines == [] then [] else MapLines(lines[..|lines| - 1], f) + [f(lines[|lines| - 1])]
  }

  lemma {:induction false} MapLinesPrefix(lines: seq<string>, f: string -> Result<seq<byte>, EncodeError>, n: nat)
    requires n <= |lines|
    ensures MapLines(lines[..n], f) == MapLines(lines, f)[..n]
    ensures forall k :: 0 <= k < n ==> MapLines(lines, f)[k] == f(lines[k])
    decreases |lines|
  {
    if n < |lines| {
      var init := lines[..|lines| - 1];
      assert init[..n] == lines[..n];
      MapLinesPrefix(init, f, n);
    } else {
      assert lines[..n] == lines;
      if lines != [] {
        var init := lines[..|lines| - 1];
        MapLinesPrefix(init, f, |init|);
        assert forall k :: 0 <= k < |init| ==> init[k] == lines[k];
      }
    }
  }

  /** What `encode_line` gives for each line, in order. */
  function LineResults(lines: seq<string>, pack: Float32Pack): seq<Result<seq<byte>, EncodeError>>
  {
    MapLines(lines, line => LineEncoding(line, pack))
  }

  /** The bytes written while the results are taken in order, and the first failure with
      its 1-based position; nothing after a failure is written. */
  function Collect(rs: seq<Result<seq<byte>, EncodeError>>): (seq<byte>, Option<(nat, EncodeError)>)
  {
    if rs == [] then ([], None)
    else
      var previous := Collect(rs[..|rs| - 1]);
      if previous.1.Some? then previous
      else
        match rs[|rs| - 1]
        case Ok(bytes) => (previous.0 + bytes, None)
        case Err(e) => (previous.0, Some((|rs|, e)))
  }

  lemma {:induction false} CollectFirstFailure(rs: seq<Result<seq<byte>, EncodeError>>)
    ensures Collect(rs).1.None? <==> forall k :: 0 <= k < |rs| ==> rs[k].Ok?
    ensures Collect(rs).1.Some? ==>
              var (n, e) := Collect(rs).1.value;
              1 <= n <= |rs| && rs[n - 1] == Err(e) && (forall k :: 0 <= k < n - 1 ==> rs[k].Ok?) &&
              Collect(rs[..n - 1]) == (Collect(rs).0, None)
  {
    if rs != [] {
      var init := rs[..|rs| - 1];
      CollectFirstFailure(init);
      var previous := Collect(init);
      if previous.1.Some? {
        var n := previous.1.value.0;
        assert init[..n - 1] == rs[..n - 1];
      }
    }
  }

  function EncodeLines(lines: seq<string>, pack: Float32Pack): (seq<byte>, Option<(nat, EncodeError)>)
  {
    Collect(LineResults(lines, pack))
  }

  /** `encode_file`: every line's packet, then one terminator; after a failure, the
      packets of the earlier lines and no terminator. */
  function FileEncoding(lines: seq<string>, pack: Float32Pack): FileOutcome
  {
    var (written, failure) := EncodeLines(lines, pack);
    match failure
    case None => FileOutcome(written + [Terminator], None)
    case Some((n, Syntax(reason))) => FileOutcome(written, Some(LineError(n, reason)))
    case Some((_, FloatOverflow)) => FileOutcome(written, Some(PackOverflow))
  }

  lemma {:induction false} CollectKeepsFailure(rs: seq<Result<seq<byte>, EncodeError>>, k: nat)
    requires k <= |rs|
    requires Collect(rs[..k]).1.Some?
    ensures Collect(rs) == Collect(rs[..k])
    decreases |rs| - k
  {
    if k < |rs| {
      var init := rs[..|rs| - 1];
      assert init[..k] == rs[..k];
      CollectKeepsFailure(init, k);
    } else {
      assert rs[..k] == rs;
    }
  }

  /** The last line after the others: Collect's step on that line's encoding. */
  lemma EncodeLinesSnoc(lines: seq<string>, pack: Float32Pack)
    requires lines != []
    ensures EncodeLines(lines, pack) ==
      var previous := EncodeLines(lines[..|lines| - 1], pack);
      if previous.1.Some? then previous
      else
        match LineEncoding(lines[|lines| - 1], pack)
        case Ok(bytes) => (previous.0 + bytes, None)
        case Err(e) => (previous.0, Some((|lines|, e)))
  {
    var f := line => LineEncoding(line, pack);
    var n := |lines| - 1;
    var rs := MapLines(lines, f);
    assert rs == MapLines(lines[..n], f) + [f(lines[n])];
    assert rs[..n] == MapLines(lines[..n], f) && rs[n] == f(lines[n]);
  }

  /** One turn of the `encode_file` loop, on line `i` after the lines before it passed. */
  lemma EncodeFileStep(lines: seq<string>, i: nat, pack: Float32Pack, written: seq<byte>)
    requires i < |lines| && EncodeLines(lines[..i], pack) == (written, None)
    ensures LineEncoding(lines[i], pack).Ok? ==>
              EncodeLines(lines[..i + 1], pack) == (written + LineEncoding(lines[i], pack).value, None)
    ensures LineEncoding(lines[i], pack).Err? ==>
              EncodeLines(lines, pack) == (written, Some((i + 1, LineEncoding(lines[i], pack).error))) &&
              FileEncoding(lines, pack) ==
                match LineEncoding(lines[i], pack).error
                case Syntax(reason) => FileOutcome(written, Some(LineError(i + 1, reason)))
                case FloatOverflow => FileOutcome(written, Some(PackOverflow))
  {
    var f := line => LineEncoding(line, pack);
    var rs := MapLines(lines, f);
    MapLinesPrefix(lines, f, i);
    MapLinesPrefix(lines, f, i + 1);
    CollectStep(rs, i, written);
  }

  /** The end of the `encode_file` loop, with every line passed. */
  lemma EncodeFileDone(lines: seq<string>, pack: Float32Pack, written: seq<byte>)
    requires EncodeLines(lines[..|lines|], pack) == (written, None)
    ensures FileEncoding(lines, pack) == FileOutcome(written + [Terminator], None)
  {
    assert lines[..|lines|] == lines;
  }

  lemma CollectStep(rs: seq<Result<seq<byte>, EncodeError>>, i: nat, written: seq<byte>)
    requires i < |rs| && Collect(rs[..i]) == (written, None)
    ensures rs[i].Ok? ==> Collect(rs[..i + 1]) == (written + rs[i].value, None)
    ensures rs[i].Err? ==> Collect(rs) == (written, Some((i + 1, rs[i].error)))
  {
    var next := rs[..i + 1];
    assert next[..i] == rs[..i] && next[i] == rs[i];
    if rs[i].Err? {
      CollectKeepsFailure(rs, i + 1);
    }
  }

  lemma EncodeLinesKeepsFailure(lines: seq<string>, k: nat, pack: Float32Pack)
    requires k <= |lines|
    requires EncodeLines(lines[..k], pack).1.Some?
    ensures EncodeLines(lines, pack) == EncodeLines(lines[..k], pack)
  {
    var f := line => LineEncoding(line, pack);
    MapLinesPrefix(lines, f, k);
    CollectKeepsFailure(MapLines(lines, f), k);
  }

  /** Encoding stops at the first line that fails, and reports that line's 1-based number
      and error; the bytes written are exactly those of the lines before it. */
  lemma FirstFailure(lines: seq<string>, pack: Float32Pack)
    ensures EncodeLines(lines, pack).1.None? <==> forall k :: 0 <= k < |lines| ==> LineResults(lines, pack)[k].Ok?
    ensures EncodeLines(lines, pack).1.Some? ==>
              var (n, e) := EncodeLines(lines, pack).1.value;
              1 <= n <= |lines| && LineResults(lines, pack)[n - 1] == Err(e) &&
              (forall k :: 0 <= k < n - 1 ==> LineResults(lines, pack)[k].Ok?) &&
              EncodeLines(lines[..n - 1], pack) == (EncodeLines(lines, pack).0, None)
  {
    var f := line => LineEncoding(line, pack);
    var rs := MapLines(lines, f);
    CollectFirstFailure(rs);
    if Collect(rs).1.Some? {
      MapLinesPrefix(lines, f, Collect(rs).1.value.0 - 1);
    }
  }

  /** Position k of LineResults is what `encode_line` gives for line k. */
  lemma LineResultAt(lines: seq<string>, pack: Float32Pack, k: nat)
    requires k < |lines|
    ensures LineResults(lines, pack)[k] == LineEncoding(lines[k], pack)
  {
    MapLinesPrefix(lines, line => LineEncoding(line, pack), |lines|);
  }

  /** `encode_file`: a counter and a loop over the lines, each line's bytes written out
      before the next line is read. */
  method EncodeFile(lines: seq<string>, pack: Float32Pack) returns (out: FileOutcome)
    ensures out == FileEncoding(lines, pack)
  {
    var lineNum := 0;
    var written: seq<byte> := [];
    assert lines[..0] == [];
    while lineNum < |lines|
      invariant 0 <= lineNum <= |lines|
      invariant EncodeLines(lines[..lineNum], pack) == (written, None)
    {
      var line := lines[lineNum];
      EncodeFileStep(lines, lineNum, pack, written);
      lineNum := lineNum + 1;
      var encoded := EncodeLine(line, pack);
      if encoded.Err? {
        match encoded.error
        case Syntax(reason) =>
          return FileOutcome(written, Some(LineError(lineNum, reason)));
        case FloatOverflow =>
          return FileOutcome(written, Some(PackOverflow));
      }
      written := written + encoded.value;
    }
    EncodeFileDone(lines, pack, written);
    return FileOutcome(written + [Terminator], None);
  }

  // ---------------------------------------------------------------------------------
  // Decoding: an independent reader of the layout Serialize writes.

  /** Payload width of a type code; None for the codes the encoder never writes. */
  function PayloadWidth(typeCode: nat): Option<nat>
  {
    if typeCode == 1 || typeCode == 3 then Some(4)
    else if typeCode == 4 then Some(8)
    else if typeCode == 5 then Some(0)
    else None
  }

  function DecodeValue(typeCode: nat, bytes: seq<byte>): Value
  {
    if typeCode == 5 then Void
    else if typeCode == 3 then U32(LittleEndianValue(bytes))
    else if typeCode == 4 then U64(LittleEndianValue(bytes))
    else Real(LittleEndianValue(bytes))
  }

  /** One parameter per index byte, each taking its payload from the front of `payload`;
      also returns how many payload bytes were used. */
  function DecodeParams(index: seq<byte>, payload: seq<byte>): (r: Option<(seq<Param>, nat)>)
    ensures r.Some? ==> |r.value.0| == |index| && r.value.1 <= |payload|
  {
    if index == [] then Some(([], 0))
    else
      var typeCode := index[0] / 32;
      var offset := index[0] % 32;
      var width := PayloadWidth(typeCode);
      if offset >= 26 || width.None? || |payload| < width.value then None
      else
        var p := Param(('A' as int + offset) as char, DecodeValue(typeCode, payload[..width.value]));
        match DecodeParams(index[1..], payload[width.value..])
        case None => None
        case Some((ps, used)) => Some(([p] + ps, width.value + used))
  }

  /** The inverse of the small-command table. */
  function SmallCommandOf(code: nat): Option<(char, nat)>
  {
    if code == 1 then Some(('G', 0))
    else if code == 2 then Some(('G', 1))
    else if code == 3 then Some(('G', 92))
    else None
  }

  lemma SmallCommandTableInverse(key: (char, nat), code: nat)
    ensures key in SmallCommands && SmallCommands[key] == code <==> SmallCommandOf(code) == Some(key)
  {
  }

  /** The command letter and number of a packet's header, and the header's length. */
  function DecodeHeader(s: seq<byte>): (r: Option<(char, nat, nat)>)
    requires s != []
    ensures r.Some? ==> r.value.2 in {1, 3}
  {
    var code := s[0] / 16;
    if code == ExtendedCode then
      if |s| < 3 || s[1] / 8 >= 26 then None
      else Some((('A' as int + s[1] / 8) as char, (s[1] % 8) as int * 256 + s[2] as int, 3))
    else
      match SmallCommandOf(code)
      case None => None
      case Some((letter, number)) => Some((letter, number, 1))
  }

  /** The first packet of `s` and its length, or None when `s` does not start with one. */
  function DecodePacket(s: seq<byte>): (r: Option<(Line, nat)>)
    ensures r.Some? ==> 0 < r.value.1 <= |s|
  {
    if s == [] then None
    else if s[0] == Terminator then Some((End, 1))
    else
      match DecodeHeader(s)
      case None => None
      case Some((letter, number, headerLength)) =>
        var count := s[0] as int % 16;
        if |s| < headerLength + count then None
        else
          match DecodeParams(s[headerLength..headerLength + count], s[headerLength + count..])
          case None => None
          case Some((ps, used)) => Some((Command(letter, number, ps), headerLength + count + used))
  }

  lemma HeaderRoundTrip(letter: char, number: nat, count: nat, tail: seq<byte>)
    requires LetterOk(letter) && number < CommandNumberLimit && count <= MaxParams
    ensures Header(letter, number, count)[0] != Terminator
    ensures Header(letter, number, count)[0] as int % 16 == count
    ensures DecodeHeader(Header(letter, number, count) + tail) == Some((letter, number, |Header(letter, number, count)|))
  {
    var h := Header(letter, number, count);
    var s := h + tail;
    LetterRoundTrip(letter);
    if (letter, number) in SmallCommands {
      SmallCommandTableInverse((letter, number), SmallCommands[(letter, number)]);
      assert s[0] == h[0];
    } else {
      assert s[0] == h[0] && s[1] == h[1] && s[2] == h[2];
      assert s[1] / 8 == LetterOffset(letter);
      assert (s[1] % 8) as int * 256 + s[2] as int == number;
    }
  }

  /** The packets of a whole byte stream, in order. */
  function DecodeStream(s: seq<byte>): Option<seq<Line>>
    decreases |s|
  {
    if s == [] then Some([])
    else
      match DecodePacket(s)
      case None => None
      case Some((l, n)) =>
        match DecodeStream(s[n..])
        case None => None
        case Some(ls) => Some([l] + ls)
  }

  lemma LetterRoundTrip(c: char)
    requires LetterOk(c)
    ensures ('A' as int + LetterOffset(c)) as char == c
  {
  }

  lemma PayloadRoundTrip(v: Value)
    requires ValueInRange(v)
    ensures PayloadWidth(TypeCode(v)) == Some(|Payload(v)|)
    ensures DecodeValue(TypeCode(v), Payload(v)) == v
  {
    PayloadWidths();
    match v
    case Void =>
    case U32(n) => LittleEndianRoundTrip(n, 4);
    case U64(n) => LittleEndianRoundTrip(n, 8);
    case Real(bits) => LittleEndianRoundTrip(bits, 4);
  }

  lemma DecodeParamStep(p: Param, index: seq<byte>, payload: seq<byte>)
    requires ValidParam(p)
    ensures DecodeParams([IndexByte(p)] + index, Payload(p.value) + payload) ==
            match DecodeParams(index, payload)
            case None => None
            case Some((ps, used)) => Some(([p] + ps, |Payload(p.value)| + used))
  {
    PayloadRoundTrip(p.value);
    LetterRoundTrip(p.letter);
    var i := [IndexByte(p)] + index;
    var b := Payload(p.value) + payload;
    var w := |Payload(p.value)|;
    assert i[0] / 32 == TypeCode(p.value) && i[0] % 32 == LetterOffset(p.letter);
    assert i[1..] == index;
    assert b[..w] == Payload(p.value) && b[w..] == payload;
  }

  lemma AllValidTail(ps: seq<Param>)
    requires AllValid(ps) && ps != []
    ensures ValidParam(ps[0]) && AllValid(ps[1..])
  {
    assert forall k :: 0 <= k < |ps[1..]| ==> ps[1..][k] == ps[k + 1];
  }

  /** The index bytes and payloads of any valid parameter list decode back to it, whatever
      follows the payloads. */
  lemma {:induction false} ParamsRoundTrip(ps: seq<Param>, rest: seq<byte>)
    requires AllValid(ps)
    ensures |IndexBytes(ps)| == |ps|
    ensures DecodeParams(IndexBytes(ps), Payloads(ps) + rest) == Some((ps, |Payloads(ps)|))
  {
    if ps != [] {
      var p, tail := ps[0], ps[1..];
      ParamsCons(ps, rest);
      ParamsRoundTrip(tail, rest);
      DecodeParamStep(p, IndexBytes(tail), Payloads(tail) + rest);
      assert [p] + tail == ps;
    }
  }

  lemma ParamsCons(ps: seq<Param>, rest: seq<byte>)
    requires AllValid(ps) && ps != []
    ensures ValidParam(ps[0]) && AllValid(ps[1..])
    ensures IndexBytes(ps) == [IndexByte(ps[0])] + IndexBytes(ps[1..])
    ensures Payloads(ps) + rest == Payload(ps[0].value) + (Payloads(ps[1..]) + rest)
    ensures |Payloads(ps)| == |Payload(ps[0].value)| + |Payloads(ps[1..])|
  {
    AllValidTail(ps);
  }

  lemma DecodeCommandPacket(s: seq<byte>, letter: char, number: nat, hl: nat, ps: seq<Param>, used: nat)
    requires s != [] && s[0] != Terminator
    requires DecodeHeader(s) == Some((letter, number, hl))
    requires hl + s[0] as int % 16 <= |s|
    requires DecodeParams(s[hl..hl + s[0] as int % 16], s[hl + s[0] as int % 16..]) == Some((ps, used))
    ensures DecodePacket(s) == Some((Command(letter, number, ps), hl + s[0] as int % 16 + used))
  {
  }

  lemma SliceParts(h: seq<byte>, index: seq<byte>, payload: seq<byte>)
    requires h != []
    ensures (h + (index + payload))[0] == h[0]
    ensures (h + (index + payload))[|h|..|h| + |index|] == index
    ensures (h + (index + payload))[|h| + |index|..] == payload
  {
  }

  lemma DecodeAssembled(h: seq<byte>, index: seq<byte>, payload: seq<byte>, rest: seq<byte>,
                        letter: char, number: nat, ps: seq<Param>)
    requires h != [] && h[0] != Terminator && h[0] as int % 16 == |index|
    requires DecodeHeader(h + (index + (payload + rest))) == Some((letter, number, |h|))
    requires DecodeParams(index, payload + rest) == Some((ps, |payload|))
    ensures DecodePacket(h + (index + (payload + rest))) ==
            Some((Command(letter, number, ps), |h| + |index| + |payload|))
  {
    SliceParts(h, index, payload + rest);
    DecodeCommandPacket(h + (index + (payload + rest)), letter, number, |h|, ps, |payload|);
  }

  /** The three parts of a command packet, named so that the decoder's reasoning does not
      see how each part is built. */
  lemma CommandRoundTrip(l: Line, rest: seq<byte>, h: seq<byte>, index: seq<byte>, payload: seq<byte>)
    requires WellFormed(l) && l.Command?
    requires h == Header(l.letter, l.number, |l.params|)
    requires AllValid(l.params) && index == IndexBytes(l.params) && payload == Payloads(l.params)
    ensures DecodePacket(h + (index + (payload + rest))) == Some((l, |h| + |index| + |payload|))
  {
    ParamsRoundTrip(l.params, rest);
    HeaderRoundTrip(l.letter, l.number, |l.params|, index + (payload + rest));
    DecodeAssembled(h, index, payload, rest, l.letter, l.number, l.params);
  }

  lemma SerializeCommand(l: Line, rest: seq<byte>)
    requires WellFormed(l) && l.Command?
    ensures AllValid(l.params)
    ensures Serialize(l) + rest ==
            Header(l.letter, l.number, |l.params|) + (IndexBytes(l.params) + (Payloads(l.params) + rest))
  {
    assert AllValid(l.params);
  }

  /** Decoding inverts Serialize: a packet is read back as the line it came from, and its
      length is known without looking past it. */
  lemma PacketRoundTrip(l: Line, rest: seq<byte>)
    requires WellFormed(l) && !l.Blank?
    ensures DecodePacket(Serialize(l) + rest) == Some((l, |Serialize(l)|))
  {
    if l.Command? {
      SerializeCommand(l, rest);
      CommandRoundTrip(l, rest, Header(l.letter, l.number, |l.params|), IndexBytes(l.params), Payloads(l.params));
    }
  }

  /** Prepends `xs` to a decoded stream, keeping a failed decode failed. */
  function Prepend(xs: seq<Line>, o: Option<seq<Line>>): Option<seq<Line>>
  {
    match o
    case None => None
    case Some(ys) => Some(xs + ys)
  }

  lemma StreamPrepend(l: Line, rest: seq<byte>)
    requires WellFormed(l) && !l.Blank?
    ensures DecodeStream(Serialize(l) + rest) == Prepend([l], DecodeStream(rest))
  {
    PacketRoundTrip(l, rest);
    var s := Serialize(l) + rest;
    assert s[|Serialize(l)|..] == rest;
  }

  /** The meanings of the lines that parse, in order. */
  function ParsedLines(lines: seq<string>, pack: Float32Pack): (r: seq<Line>)
    ensures forall k :: 0 <= k < |r| ==> WellFormed(r[k])
  {
    if lines == [] then []
    else
      ParsedLines(lines[..|lines| - 1], pack) +
      match ParseLine(lines[|lines| - 1], pack)
      case Ok(l) => [l]
      case Err(_) => []
  }

  /** The lines other than blank ones. */
  function Commands(ls: seq<Line>): seq<Line>
  {
    if ls == [] then []
    else Commands(ls[..|ls| - 1]) + if ls[|ls| - 1].Blank? then [] else [ls[|ls| - 1]]
  }

  function SerializeAll(ls: seq<Line>): seq<byte>
    requires forall k :: 0 <= k < |ls| ==> WellFormed(ls[k])
  {
    if ls == [] then [] else SerializeAll(ls[..|ls| - 1]) + Serialize(ls[|ls| - 1])
  }

  lemma EncodeLinesLast(lines: seq<string>, pack: Float32Pack)
    requires lines != [] && EncodeLines(lines, pack).1.None?
    ensures EncodeLines(lines[..|lines| - 1], pack).1.None?
    ensures ParseLine(lines[|lines| - 1], pack).Ok?
    ensures var l := ParseLine(lines[|lines| - 1], pack).value;
            EncodeLines(lines, pack).0 == EncodeLines(lines[..|lines| - 1], pack).0 + Serialize(l) &&
            ParsedLines(lines, pack) == ParsedLines(lines[..|lines| - 1], pack) + [l]
  {
    EncodeLinesSnoc(lines, pack);
  }

  /** What a successful run writes before the terminator is the packets of the lines'
      meanings, in order. */
  lemma {:induction false} EncodeLinesSerializes(lines: seq<string>, pack: Float32Pack)
    requires EncodeLines(lines, pack).1.None?
    ensures |ParsedLines(lines, pack)| == |lines|
    ensures EncodeLines(lines, pack).0 == SerializeAll(ParsedLines(lines, pack))
  {
    if lines != [] {
      EncodeLinesLast(lines, pack);
      var init := lines[..|lines| - 1];
      EncodeLinesSerializes(init, pack);
      var ls := ParsedLines(lines, pack);
      assert ls[..|ls| - 1] == ParsedLines(init, pack);
    }
  }

  lemma TerminatorDecodes()
    ensures DecodeStream([Terminator]) == Some([End])
  {
    assert DecodePacket([Terminator]) == Some((End, 1));
    assert [Terminator][1..] == [];
    assert DecodeStream([]) == Some([]);
    assert [End] + [] == [End];
  }

  lemma PrependEmpty(o: Option<seq<Line>>)
    ensures Prepend([], o) == o
  {
    if o.Some? {
      assert [] + o.value == o.value;
    }
  }

  lemma PrependTwice(xs: seq<Line>, ys: seq<Line>, o: Option<seq<Line>>)
    ensures Prepend(xs, Prepend(ys, o)) == Prepend(xs + ys, o)
  {
    if o.Some? {
      assert xs + (ys + o.value) == xs + ys + o.value;
    }
  }

  lemma DecodeOneMore(l: Line, rest: seq<byte>)
    requires WellFormed(l)
    ensures DecodeStream(Serialize(l) + rest) == Prepend(if l.Blank? then [] else [l], DecodeStream(rest))
  {
    if l.Blank? {
      assert Serialize(l) + rest == rest;
      PrependEmpty(DecodeStream(rest));
    } else {
      StreamPrepend(l, rest);
    }
  }

  /** The packet stream of a sequence of lines decodes to its non-blank lines, whatever
      follows it. */
  lemma {:induction false} SerializeAllDecodes(ls: seq<Line>, rest: seq<byte>)
    requires forall k :: 0 <= k < |ls| ==> WellFormed(ls[k])
    ensures DecodeStream(SerializeAll(ls) + rest) == Prepend(Commands(ls), DecodeStream(rest))
  {
    if ls == [] {
      assert SerializeAll(ls) + rest == rest;
      PrependEmpty(DecodeStream(rest));
    } else {
      var init := ls[..|ls| - 1];
      var l := ls[|ls| - 1];
      var b := Serialize(l);
      SerializeAllDecodes(init, b + rest);
      assert SerializeAll(ls) + rest == SerializeAll(init) + (b + rest);
      DecodeOneMore(l, rest);
      PrependTwice(Commands(init), if l.Blank? then [] else [l], DecodeStream(rest));
    }
  }

  /** A file that encodes without error decodes back to its non-blank lines, in order,
      followed by one terminator. */
  lemma FileRoundTrip(lines: seq<string>, pack: Float32Pack)
    requires FileEncoding(lines, pack).error.None?
    ensures DecodeStream(FileEncoding(lines, pack).written) == Some(Commands(ParsedLines(lines, pack)) + [End])
  {
    assert EncodeLines(lines, pack).1.None?;
    EncodeLinesSerializes(lines, pack);
    SerializeAllDecodes(ParsedLines(lines, pack), [Terminator]);
    TerminatorDecodes();
  }
}
