/** Random codes: rejection sampling of bytes read in blocks, and its exact uniformity. */
module Base62 {
  import opened Prelude

  type Byte = x: int | 0 <= x < 256

  const DIGITS := "0123456789"
  const LOWER := "abcdefghijklmnopqrstuvwxyz"
  const UPPER := "ABCDEFGHIJKLMNOPQRSTUVWXYZ"

  const ALPHABET := DIGITS + LOWER + UPPER

  const BASE: nat := 62

  const UNBIASED_LIMIT: nat := 256 - 256 % BASE

  /** The symbols by arithmetic: digits, lower case, upper case. */
  function Symbol(i: nat): char
    requires i < BASE
  {
    if i < 10 then ('0' as int + i) as char
    else if i < 36 then ('a' as int + i - 10) as char
    else ('A' as int + i - 36) as char
  }

  /** The alphabet's text, symbol by symbol; the 62 symbols are distinct. */
  lemma AlphabetSymbol(i: nat, k: nat)
    requires i < BASE && k < BASE
    ensures |ALPHABET| == BASE && ALPHABET[i] == Symbol(i)
    ensures Symbol(i) == Symbol(k) ==> i == k
  {
    if i < 10 {
      assert ALPHABET[i] == DIGITS[i];
    } else if i < 36 {
      assert ALPHABET[i] == LOWER[i - 10];
    } else {
      assert ALPHABET[i] == UPPER[i - 36];
    }
  }

  /** The code denoted by a byte stream: accepted bytes, each mapped modulo 62. */
  function Codes(bs: seq<Byte>): string {
    if bs == [] then ""
    else
      var last := bs[|bs| - 1];
      Codes(bs[..|bs| - 1]) + if last >= UNBIASED_LIMIT then "" else [Symbol(last % BASE)]
  }

  lemma {:induction false} CodesConcat(a: seq<Byte>, b: seq<Byte>)
    ensures Codes(a + b) == Codes(a) + Codes(b)
  {
    if b == [] {
      assert a + b == a;
    } else {
      assert (a + b)[..|a + b| - 1] == a + b[..|b| - 1];
      CodesConcat(a, b[..|b| - 1]);
    }
  }

  /** Byte by byte: each accepted byte gives the symbol at its remainder modulo 62, the others nothing. */
  lemma {:induction false} CodeByByte(bs: seq<Byte>, k: nat)
    requires forall i :: 0 <= i < |bs| ==> bs[i] < 248
    requires k < |bs|
    ensures |Codes(bs)| == |bs|
    ensures Codes(bs)[k] ==
      ("0123456789" + "abcdefghijklmnopqrstuvwxyz" + "ABCDEFGHIJKLMNOPQRSTUVWXYZ")[bs[k] % 62]
  {
    var init, last := bs[..|bs| - 1], bs[|bs| - 1];
    if init == [] {
      assert Codes(init) == "";
    } else {
      CodeByByte(init, if k < |init| then k else 0);
    }
    AlphabetSymbol(last % 62, 0);
  }

  /** A rejected byte gives no symbol, wherever it stands. */
  lemma RejectedByte(a: seq<Byte>, x: Byte, b: seq<Byte>)
    requires x >= 248
    ensures Codes(a + [x] + b) == Codes(a + b)
  {
    CodesConcat(a + [x], b);
    CodesConcat(a, b);
    assert (a + [x])[..|a|] == a;
  }

  // ---------------------------------------------------------------------------------------------
  // Uniformity
  // ---------------------------------------------------------------------------------------------

  function Pow4(n: nat): nat { if n == 0 then 1 else 4 * Pow4(n - 1) }

  predicate IsSymbol(c: char) { exists i :: 0 <= i < BASE && Symbol(i) == c }

  predicate OverAlphabet(code: string) { forall i :: 0 <= i < |code| ==> IsSymbol(code[i]) }

  predicate AllAccepted(bs: seq<Byte>) { forall i :: 0 <= i < |bs| ==> bs[i] < UNBIASED_LIMIT }

  /** The accepted bytes that produce a symbol. */
  function BytesFor(c: char): set<Byte> {
    set b: Byte | 0 <= b < 256 && b < UNBIASED_LIMIT && Symbol(b % BASE) == c
  }

  lemma FourBytesEach(c: char)
    requires IsSymbol(c)
    ensures |BytesFor(c)| == 4
  {
    var i :| 0 <= i < BASE && Symbol(i) == c;
    forall b: Byte ensures b in BytesFor(c) <==> b in {i, i + 62, i + 124, i + 186} {
      ResidueClass(i, b);
      AlphabetSymbol(b % BASE, i);
    }
    var four: set<Byte> := {i, i + 62, i + 124, i + 186};
    assert BytesFor(c) == four;
    assert |four| == 4;
  }

  lemma ResidueClass(i: nat, b: nat)
    requires i < 62
    ensures b < 248 && b % 62 == i <==> b in {i, i + 62, i + 124, i + 186}
  {
  }

  function Product(xs: set<seq<Byte>>, ys: set<Byte>): set<seq<Byte>> {
    set bs, b | bs in xs && b in ys :: bs + [b]
  }

  lemma SnocInjective(x: seq<Byte>, y: seq<Byte>, b: Byte, d: Byte)
    requires x + [b] == y + [d]
    ensures x == y && b == d
  {
    assert (x + [b])[..|x + [b]| - 1] == x && (y + [d])[..|y + [d]| - 1] == y;
    assert (x + [b])[|x|] == b && (y + [d])[|y|] == d;
  }

  /** All strings of accepted bytes, one per symbol, that produce the code. */
  function Preimages(code: string): set<seq<Byte>> {
    if code == "" then {[]}
    else Product(Preimages(code[..|code| - 1]), BytesFor(code[|code| - 1]))
  }

  lemma ProductMember(xs: set<seq<Byte>>, ys: set<Byte>, x: seq<Byte>, b: Byte)
    ensures x + [b] in Product(xs, ys) <==> x in xs && b in ys
  {
    if x + [b] in Product(xs, ys) {
      var y, d :| y in xs && d in ys && x + [b] == y + [d];
      SnocInjective(x, y, b, d);
    }
  }

  lemma CodesSnoc(init: seq<Byte>, b: Byte)
    ensures Codes(init + [b]) == Codes(init) + if b >= UNBIASED_LIMIT then "" else [Symbol(b % BASE)]
    ensures AllAccepted(init + [b]) <==> AllAccepted(init) && b < UNBIASED_LIMIT
  {
    assert (init + [b])[..|init + [b]| - 1] == init;
    assert (init + [b])[|init|] == b;
    assert forall i :: 0 <= i < |init| ==> (init + [b])[i] == init[i];
  }

  lemma StringSnocInjective(s: string, t: string, c: char, d: char)
    ensures s + [c] == t + [d] <==> s == t && c == d
  {
    assert (s + [c])[..|s + [c]| - 1] == s && (t + [d])[..|t + [d]| - 1] == t;
    assert (s + [c])[|s|] == c && (t + [d])[|t|] == d;
  }

  /** Preimages is exactly the set of accepted byte strings that the generator maps to the code. */
  lemma {:induction false} PreimagesAreExact(code: string, bs: seq<Byte>)
    ensures bs in Preimages(code) <==> AllAccepted(bs) && Codes(bs) == code
  {
    if bs != [] {
      var init, b := bs[..|bs| - 1], bs[|bs| - 1];
      assert bs == init + [b];
      CodesSnoc(init, b);
      if code != "" {
        var init', c := code[..|code| - 1], code[|code| - 1];
        assert code == init' + [c];
        PreimagesAreExact(init', init);
        ProductMember(Preimages(init'), BytesFor(c), init, b);
        StringSnocInjective(Codes(init), init', Symbol(b % BASE), c);
      }
    }
  }

  lemma {:induction false} RowSize(x: seq<Byte>, ys: set<Byte>)
    ensures |Product({x}, ys)| == |ys|
  {
    if ys == {} {
      assert Product({x}, ys) == {};
    } else {
      var y :| y in ys;
      RowSize(x, ys - {y});
      assert Product({x}, ys) == Product({x}, ys - {y}) + {x + [y]};
      if x + [y] in Product({x}, ys - {y}) {
        var b :| b in ys - {y} && x + [y] == x + [b];
        SnocInjective(x, x, y, b);
      }
    }
  }

  lemma ProductSplits(xs: set<seq<Byte>>, x: seq<Byte>, ys: set<Byte>)
    requires x in xs
    ensures Product(xs, ys) == Product(xs - {x}, ys) + Product({x}, ys)
    ensures Product(xs - {x}, ys) !! Product({x}, ys)
  {
    forall t | t in Product(xs, ys) ensures t in Product(xs - {x}, ys) || t in Product({x}, ys) {
      var bs, b :| bs in xs && b in ys && t == bs + [b];
      assert bs in xs - {x} || bs in {x};
    }
    forall t | t in Product(xs - {x}, ys) ensures t !in Product({x}, ys) {
      if t in Product({x}, ys) {
        var bs, b :| bs in xs - {x} && b in ys && t == bs + [b];
        var d :| d in ys && t == x + [d];
        SnocInjective(bs, x, b, d);
      }
    }
  }

  lemma DisjointUnion<T>(a: set<T>, b: set<T>)
    requires a !! b
    ensures |a + b| == |a| + |b|
  {
  }

  lemma {:induction false} ProductSize(xs: set<seq<Byte>>, ys: set<Byte>)
    ensures |Product(xs, ys)| == |xs| * |ys|
  {
    if xs == {} {
      assert Product(xs, ys) == {};
    } else {
      var x :| x in xs;
      var n := |xs - {x}|;
      ProductSize(xs - {x}, ys);
      RowSize(x, ys);
      ProductSplits(xs, x, ys);
      DisjointUnion(Product(xs - {x}, ys), Product({x}, ys));
      DisjointUnion(xs - {x}, {x});
      assert xs == (xs - {x}) + {x};
      assert |xs| == n + 1 && |Product(xs, ys)| == n * |ys| + |ys|;
      Distribute(|ys|, n);
      assert |xs| * |ys| == (n + 1) * |ys|;
    }
  }

  /** Exact uniformity: every code of length n has exactly 4^n accepted preimages. */
  lemma {:induction false} Uniform(code: string)
    requires OverAlphabet(code)
    ensures |Preimages(code)| == Pow4(|code|)
  {
    if code != "" {
      var init := code[..|code| - 1];
      assert OverAlphabet(init) && IsSymbol(code[|code| - 1]);
      Uniform(init);
      FourBytesEach(code[|code| - 1]);
      ProductSize(Preimages(init), BytesFor(code[|code| - 1]));
    }
  }

  // ---------------------------------------------------------------------------------------------
  // The generator
  // ---------------------------------------------------------------------------------------------

  /** A reader over a finite byte source. */
  class ByteReader {
    const source: seq<Byte>
    var pos: nat

    constructor (source: seq<Byte>)
      ensures this.source == source && pos == 0 && Valid()
    {
      this.source := source;
      this.pos := 0;
    }

    predicate Valid()
      reads this
    {
      pos <= |source|
    }

    function Rest(): seq<Byte>
      reads this
      requires Valid()
    {
      source[pos..]
    }

    /** io.ReadFull: fills the buffer, or consumes what is left and fails. */
    method ReadFull(buffer: array<Byte>) returns (ok: bool)
      requires Valid()
      modifies this, buffer
      ensures Valid()
      ensures ok <==> buffer.Length <= |old(Rest())|
      ensures ok ==> buffer[..] == old(Rest())[..buffer.Length] && Rest() == old(Rest())[buffer.Length..]
      ensures !ok ==> pos == |source|
    {
      if |source| - pos < buffer.Length {
        pos := |source|;
        return false;
      }
      for i := 0 to buffer.Length
        invariant pos == old(pos)
        invariant forall k :: 0 <= k < i ==> buffer[k] == source[pos + k]
      {
        buffer[i] := source[pos + i];
      }
      pos := pos + buffer.Length;
      return true;
    }
  }

  /** Reading stops at the first `length` symbols. */
  function Cut(code: string, length: nat): string { if |code| < length then code else code[..length] }

  /** One pass over a block: appends accepted symbols until the code is complete. */
  method Absorb(code: string, length: nat, block: array<Byte>) returns (code': string)
    requires |code| < length
    ensures code' == Cut(code + Codes(block[..]), length)
  {
    code' := code;
    var i := 0;
    while i < block.Length
      invariant 0 <= i <= block.Length
      invariant code' == code + Codes(block[..i]) && |code'| < length
    {
      assert block[..i + 1][..i] == block[..i];
      if block[i] < UNBIASED_LIMIT {
        AlphabetSymbol(block[i] % BASE, 0);
        code' := code' + [ALPHABET[block[i] % |ALPHABET|]];
        if |code'| == length {
          assert block[..] == block[..i + 1] + block[i + 1..];
          CodesConcat(block[..i + 1], block[i + 1..]);
          return;
        }
      }
      i := i + 1;
    }
    assert block[..i] == block[..];
  }

  /** The bytes that the full blocks of a source make up. */
  ghost function Whole(total: nat, length: nat): (w: nat)
    requires length > 0
    ensures w <= total < w + length
  {
    if total < length then 0 else length + Whole(total - length, length)
  }

  lemma CodesOfPrefix(bs: seq<Byte>, i: nat, k: nat)
    requires i <= k <= |bs|
    ensures Codes(bs[..k]) == Codes(bs[..i]) + Codes(bs[i..k])
  {
    assert bs[..k] == bs[..i] + bs[i..k];
    CodesConcat(bs[..i], bs[i..k]);
  }

  /** The code built so far is what the consumed whole blocks determine. */
  ghost predicate Progress(rest: seq<Byte>, consumed: nat, length: nat, code: string) {
    && consumed <= |rest| && code == Cut(Codes(rest[..consumed]), length)
    && (length > 0 ==> Whole(|rest|, length) == consumed + Whole(|rest| - consumed, length))
  }

  lemma OneMoreBlock(rest: seq<Byte>, consumed: nat, length: nat, code: string)
    requires Progress(rest, consumed, length, code) && |code| < length && consumed + length <= |rest|
    ensures Progress(rest, consumed + length, length, Cut(code + Codes(rest[consumed..consumed + length]), length))
  {
    CodesOfPrefix(rest, consumed, consumed + length);
    assert code == Codes(rest[..consumed]);
    WholeStep(|rest| - consumed, length);
  }

  lemma WholeStep(total: nat, length: nat)
    requires 0 < length <= total
    ensures Whole(total, length) == length + Whole(total - length, length)
  {
  }

  lemma Complete(rest: seq<Byte>, consumed: nat, length: nat, code: string)
    requires Progress(rest, consumed, length, code) && |code| >= length
    ensures |code| == length && code <= Codes(rest)
    ensures length == 0 ==> code == ""
    ensures length > 0 ==> |Codes(rest[..Whole(|rest|, length)])| >= length
  {
    CodesOfPrefix(rest, consumed, |rest|);
    assert rest[..|rest|] == rest;
    if length > 0 {
      CodesOfPrefix(rest, consumed, Whole(|rest|, length));
    }
  }

  lemma Exhausted(rest: seq<Byte>, consumed: nat, length: nat, code: string)
    requires Progress(rest, consumed, length, code) && |code| < length && |rest| - consumed < length
    ensures |Codes(rest[..Whole(|rest|, length)])| < length
  {
  }

  /** One turn of the outer loop: a full block is read and absorbed, or the source is too short. */
  method NextBlock(
    reader: ByteReader, block: array<Byte>, code: string, length: nat, ghost rest: seq<Byte>, ghost consumed: nat
  ) returns (ok: bool, code': string)
    requires reader.Valid() && block.Length == length && |code| < length
    requires Progress(rest, consumed, length, code) && reader.Rest() == rest[consumed..]
    modifies reader, block
    ensures reader.Valid()
    ensures ok ==> consumed + length <= |rest| && Progress(rest, consumed + length, length, code')
    ensures ok ==> reader.Rest() == rest[consumed + length..]
    ensures !ok ==> |Codes(rest[..Whole(|rest|, length)])| < length
  {
    ok := reader.ReadFull(block);
    if !ok {
      Exhausted(rest, consumed, length, code);
      return false, code;
    }
    OneMoreBlock(rest, consumed, length, code);
    assert block[..] == rest[consumed..consumed + length];
    code' := Absorb(code, length, block);
  }

  /**
   * Base62Generator.Generate over a finite source: the code is the first `length` symbols of the
   * stream; without cancellation it succeeds exactly when the full blocks hold that many.
   */
  method Generate(reader: ByteReader, length: nat, ctxDone: nat -> bool) returns (r: Result<string, Error>)
    requires reader.Valid()
    modifies reader
    ensures reader.Valid()
    ensures r.Ok? ==> |r.value| == length && r.value <= Codes(old(reader.Rest()))
    ensures (forall k :: !ctxDone(k)) && length > 0 ==>
      (r.Ok? <==> |Codes(old(reader.Rest())[..Whole(|old(reader.Rest())|, length)])| >= length)
    ensures length == 0 && !ctxDone(0) ==> r == Ok("")
    ensures ctxDone(0) ==> r == Err(ContextDone)
    ensures (forall k :: !ctxDone(k)) && r.Err? ==> r == Err(Backend)
  {
    if ctxDone(0) {
      return Err(ContextDone);
    }
    ghost var rest := reader.Rest();
    ghost var consumed: nat := 0;
    var code := "";
    var block := new Byte[length](_ => 0);
    var turn := 0;
    while |code| < length
      invariant reader.Valid()
      invariant Progress(rest, consumed, length, code) && reader.Rest() == rest[consumed..]
      decreases |rest| - consumed
    {
      turn := turn + 1;
      if ctxDone(turn) {
        return Err(ContextDone);
      }
      var ok: bool;
      ok, code := NextBlock(reader, block, code, length, rest, consumed);
      if !ok {
        return Err(Backend);
      }
      consumed := consumed + length;
    }
    Complete(rest, consumed, length, code);
    return Ok(code);
  }
}
