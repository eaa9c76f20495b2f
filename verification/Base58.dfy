/**
Base58 as the relay hand-rolls it: encoding by repeated in-place long division of a byte buffer, decoding by
in-place multiplication into a buffer as long as the input, and Base58Check on top.
*/
module Base58 {
  import opened Common
  import opened Radix

  const ALPHABET: string := "123456789" + "ABCDEFGH" + "JKLMN" + "PQRSTUVWXYZ" + "abcdefghijk" + "mnopqrstuvwxyz"

  function DigitChar(d: nat): char
    requires d < 58
  {
    (if d < 9 then d + 49 else if d < 17 then d + 56 else if d < 22 then d + 57
     else if d < 33 then d + 58 else if d < 44 then d + 64 else d + 65) as char
  }

  /** The position of a byte in the alphabet, 58 when it is not there. */
  function CodeDigit(c: nat): (d: nat)
    ensures d <= 58 && (d < 58 ==> DigitChar(d) as nat == c)
  {
    if 49 <= c <= 57 then c - 49
    else if 65 <= c <= 72 then c - 56
    else if 74 <= c <= 78 then c - 57
    else if 80 <= c <= 90 then c - 58
    else if 97 <= c <= 107 then c - 64
    else if 109 <= c <= 122 then c - 65
    else 58
  }

  lemma DigitOfChar(d: nat)
    requires d < 58
    ensures DigitChar(d) as nat < 256 && CodeDigit(DigitChar(d) as nat) == d
    ensures DigitChar(d) == '1' <==> d == 0
  {
  }

  /** `DigitChar` is the alphabet: its six runs of consecutive characters. */
  lemma AlphabetByDigit(d: nat)
    requires d < 58
    ensures |ALPHABET| == 58 && ALPHABET[d] == DigitChar(d)
  {
    if d < 9 {
      assert ALPHABET[d] == "123456789"[d];
    } else if d < 17 {
      assert ALPHABET[d] == "ABCDEFGH"[d - 9];
    } else if d < 22 {
      assert ALPHABET[d] == "JKLMN"[d - 17];
    } else if d < 33 {
      assert ALPHABET[d] == "PQRSTUVWXYZ"[d - 22];
    } else if d < 44 {
      assert ALPHABET[d] == "abcdefghijk"[d - 33];
    } else {
      assert ALPHABET[d] == "mnopqrstuvwxyz"[d - 44];
    }
  }

  // ----- what the two directions compute

  function Text(digits: seq<nat>): string
    requires IsDigits(58, digits)
  {
    seq(|digits|, i requires 0 <= i < |digits| => DigitChar(digits[i]))
  }

  /** The source looks a character up by its low eight bits. */
  function Code(c: char): nat { CodeDigit(c as nat % 256) }

  function Codes(s: string): (r: seq<nat>)
    ensures |r| == |s|
  {
    seq(|s|, i requires 0 <= i < |s| => Code(s[i]))
  }

  predicate OverAlphabet(s: string) {
    forall i :: 0 <= i < |s| ==> s[i] as nat < 256 && Code(s[i]) < 58
  }

  predicate Decodable(s: string) {
    IsDigits(58, Codes(s))
  }

  function LeadingOnes(s: string): nat {
    if s == "" || s[0] != '1' then 0 else 1 + LeadingOnes(s[1..])
  }

  function Encoded(bytes: seq<byte>): string {
    RecodeRoundTrip(256, 58, bytes);
    Text(Recode(256, 58, bytes))
  }

  function Decoded(s: string): seq<nat> {
    Zeros(LeadingOnes(s)) + Digits(256, Value(58, Codes(s)))
  }

  // ----- encoding

  /** Long division by 58 of the big-endian number `s`, carrying `rem` in: the quotient's bytes and the remainder. */
  function LongDivision(s: seq<byte>, rem: nat): (r: (seq<byte>, nat))
    requires rem < 58
    ensures |r.0| == |s| && r.1 < 58
  {
    if s == [] then ([], rem)
    else
      var cur := rem * 256 + s[0];
      var (q, r) := LongDivision(s[1..], cur % 58);
      ([cur / 58] + q, r)
  }

  lemma DivisionArithmetic(rem: nat, x: nat, p: nat, q: nat, r: nat, vq: nat, vs: nat, out: nat)
    requires rem * 256 + x == q * 58 + r && vq * 58 + out == r * p + vs
    ensures (q * p + vq) * 58 + out == rem * (256 * p) + (x * p + vs)
  {
    assert (rem * 256 + x) * p == (q * 58 + r) * p;
  }

  lemma {:induction false} DivisionExact(s: seq<byte>, rem: nat)
    requires rem < 58
    ensures var d := LongDivision(s, rem); Value(256, d.0) * 58 + d.1 == rem * Pow(256, |s|) + Value(256, s)
  {
    if s != [] {
      var cur, rest := rem * 256 + s[0], s[1..];
      DivisionExact(rest, cur % 58);
      var d := LongDivision(rest, cur % 58);
      ValueCons(256, cur / 58, d.0);
      ValueCons(256, s[0], rest);
      assert s == [s[0]] + rest;
      DivisionArithmetic(rem, s[0], Pow(256, |rest|), cur / 58, cur % 58, Value(256, d.0), Value(256, rest), d.1);
    }
  }

  /** One step of the division, the lengths and the leading byte of what it yields. */
  lemma DivisionStep(s: seq<byte>, rem: nat)
    requires s != [] && rem < 58
    ensures var cur := rem * 256 + s[0];
            var d := LongDivision(s[1..], cur % 58);
            && LongDivision(s, rem) == ([cur / 58] + d.0, d.1)
            && (cur / 58 == 0 <==> cur < 58) && (cur < 58 ==> cur % 58 == cur)
  {
  }

  /** No spurious leading digit: at most one leading byte of the quotient is zero, and then something is left. */
  lemma DivisionLeads(s: seq<byte>)
    requires s != [] && s[0] != 0
    ensures var d := LongDivision(s, 0);
            d.0[0] == 0 ==> if |s| == 1 then d.1 != 0 else d.0[1] != 0
  {
    DivisionStep(s, 0);
    if s[0] < 58 && |s| > 1 {
      DivisionStep(s[1..], s[0]);
    }
  }

  /** With the quotient bytes `done` written and `rem` carried, dividing the `rest` completes the division `all`. */
  ghost predicate Completes(done: seq<byte>, rest: seq<byte>, rem: nat, all: (seq<byte>, nat)) {
    && rem < 58
    && var d := LongDivision(rest, rem);
       done + d.0 == all.0 && d.1 == all.1
  }

  lemma CompletesStep(done: seq<byte>, rest: seq<byte>, rem: nat, all: (seq<byte>, nat))
    requires rest != [] && Completes(done, rest, rem, all)
    ensures (rem * 256 + rest[0]) / 58 < 256
    ensures Completes(done + [(rem * 256 + rest[0]) / 58], rest[1..], (rem * 256 + rest[0]) % 58, all)
  {
    DivisionStep(rest, rem);
  }

  /** One in-place long division by 58 of the big-endian number in `n[start..]`. */
  method DivideInPlace(n: array<byte>, start: nat) returns (rem: nat)
    requires start < n.Length && n[start] != 0
    modifies n
    ensures n[..start] == old(n[..start])
    ensures n[start..] == LongDivision(old(n[start..]), 0).0 && rem == LongDivision(old(n[start..]), 0).1
  {
    rem := 0;
    ghost var all := LongDivision(n[start..], 0);
    ghost var done: seq<byte> := [];
    for j := start to n.Length
      invariant n[..start] == old(n[..start]) && n[start..j] == done
      invariant Completes(done, n[j..], rem, all)
    {
      ghost var rest := n[j..];
      CompletesStep(done, rest, rem, all);
      assert rest[0] == n[j];
      var cur := rem * 256 + n[j];
      n[j] := cur / 58;
      rem := cur % 58;
      assert n[start..j + 1] == done + [cur / 58];
      done := done + [cur / 58];
      assert n[j + 1..] == rest[1..];
    }
    assert n[start..n.Length] == n[start..] && n[n.Length..] == [];
  }

  /** What one division does to the number `s` without a leading zero. */
  lemma DivisionOf(s: seq<byte>, q: seq<byte>, rem: nat)
    requires s != [] && s[0] != 0 && q == LongDivision(s, 0).0 && rem == LongDivision(s, 0).1
    ensures |q| == |s| && rem < 58 && 0 < Value(256, s) == Value(256, q) * 58 + rem
    ensures q[0] == 0 ==> if |s| == 1 then rem != 0 else q[1] != 0
  {
    ValuePositive(256, s);
    DivisionExact(s, 0);
    DivisionLeads(s);
  }

  lemma DigitsStep(v: nat, q: nat, rem: nat, tail: seq<nat>)
    requires v > 0 && q * 58 + rem == v && rem < 58
    ensures Digits(58, v) + tail == Digits(58, q) + ([rem] + tail)
  {
    DivModUnique(q, 58, rem);
    assert Digits(58, v) + tail == Digits(58, q) + ([rem] + tail);
  }

  /** `out` holds these digits, least significant first. */
  ghost predicate Printed(out: string, digits: seq<nat>) {
    IsDigits(58, digits) && Reversed(out) == Text(digits)
  }

  lemma PrintedStep(out: string, digits: seq<nat>, rem: nat)
    requires Printed(out, digits) && rem < 58
    ensures |ALPHABET| == 58 && Printed(out + [ALPHABET[rem]], [rem] + digits)
  {
    AlphabetByDigit(rem);
    ReversedSnoc(out, ALPHABET[rem]);
    assert Text([rem] + digits) == [DigitChar(rem)] + Text(digits);
  }

  /** A zero at the front does not change the number behind it. */
  lemma SkipZero(s: seq<nat>)
    requires s != [] && s[0] == 0
    ensures Value(256, s[1..]) == Value(256, s)
  {
    assert s == Zeros(1) + s[1..];
    ValueZeros(256, 1, s[1..]);
  }

  /** The digits of the number in `n[first..]`, least significant first, dividing the buffer down to zero. */
  method DivideOut(n: array<byte>, first: nat) returns (out: string)
    requires first <= n.Length && (first < n.Length ==> n[first] != 0)
    modifies n
    ensures Printed(out, Digits(58, Value(256, old(n[first..]))))
  {
    ghost var digits: seq<nat> := [];
    ghost var v := Value(256, n[first..]);
    ghost var total := Digits(58, v);
    out := "";
    var start := first;
    assert Digits(58, v) + [] == total;
    while start < n.Length
      invariant first <= start <= n.Length && (start < n.Length ==> n[start] != 0)
      invariant Printed(out, digits) && v == Value(256, n[start..])
      invariant Digits(58, v) + digits == total
      decreases v, n.Length - start
    {
      ghost var number := n[start..];
      var rem := DivideInPlace(n, start);
      ghost var q := n[start..];
      DivisionOf(number, q, rem);
      DigitsStep(v, Value(256, q), rem, digits);
      v := Value(256, q);
      PrintedStep(out, digits, rem);
      digits := [rem] + digits;
      out := out + [ALPHABET[rem]];
      if n[start] == 0 {
        SkipZero(q);
        assert q[1..] == n[start + 1..];
        start := start + 1;
      }
    }
    assert n[start..] == [] && [] + digits == digits;
  }

  function Ones(n: nat): string { seq(n, _ => '1') }

  lemma TextOfZeros(zeros: nat, digits: seq<nat>)
    requires IsDigits(58, digits)
    ensures IsDigits(58, Zeros(zeros) + digits) && Text(Zeros(zeros) + digits) == Ones(zeros) + Text(digits)
  {
  }

  lemma EncodedParts(bytes: seq<byte>, zeros: nat)
    requires zeros <= |bytes| && (zeros < |bytes| ==> bytes[zeros] != 0)
    requires forall i :: 0 <= i < zeros ==> bytes[i] == 0
    ensures var digits := Digits(58, Value(256, bytes[zeros..]));
            IsDigits(58, digits) && Encoded(bytes) == Ones(zeros) + Text(digits)
  {
    var rest := bytes[zeros..];
    var digits := Digits(58, Value(256, rest));
    LeadingZerosUnique(bytes, zeros);
    assert bytes == Zeros(zeros) + rest;
    ValueZeros(256, zeros, rest);
    DigitsWellFormed(58, Value(256, rest));
    TextOfZeros(zeros, digits);
  }

  lemma ReversedConcat<T>(p: seq<T>, q: seq<T>)
    ensures Reversed(p + q) == Reversed(q) + Reversed(p)
  {
  }

  method Encode(bytes: seq<byte>) returns (s: string)
    ensures s == Encoded(bytes)
  {
    var zeros := 0;
    while zeros < |bytes| && bytes[zeros] == 0
      invariant zeros <= |bytes| && forall i :: 0 <= i < zeros ==> bytes[i] == 0
    {
      zeros := zeros + 1;
    }
    var n := new byte[|bytes|](i requires 0 <= i < |bytes| => bytes[i]);
    assert n[zeros..] == bytes[zeros..];
    var out := DivideOut(n, zeros);
    s := Reversed(out + Ones(zeros));
    ReversedConcat(out, Ones(zeros));
    assert Reversed(Ones(zeros)) == Ones(zeros);
    EncodedParts(bytes, zeros);
  }

  // ----- decoding

  /** The number a little-endian byte sequence writes. */
  function LeValue(s: seq<nat>): nat { Value(256, Reversed(s)) }

  lemma CarryStep(p: nat, cur: nat)
    ensures (cur % 256) * p + (cur / 256) * (256 * p) == cur * p
  {
    assert cur == (cur / 256) * 256 + cur % 256;
    assert cur * p == ((cur / 256) * 256) * p + (cur % 256) * p;
    assert ((cur / 256) * 256) * p == (cur / 256) * (256 * p);
  }

  lemma Distribute(x: nat, carry: nat, p: nat)
    ensures (x * 58 + carry) * p == (x * p) * 58 + carry * p
  {
  }

  lemma MultiplyArithmetic(vl: nat, vb: nat, p: nat, x: nat, carry: nat, digit: nat, a: nat, b: nat, q: nat)
    requires vl + carry * p == vb * 58 + digit
    requires a == ((x * 58 + carry) % 256) * p + vl && b == x * p + vb && q == 256 * p
    ensures a + ((x * 58 + carry) / 256) * q == b * 58 + digit
  {
    CarryStep(p, x * 58 + carry);
    Distribute(x, carry, p);
  }

  lemma LeAppend(s: seq<nat>, x: nat)
    ensures LeValue(s + [x]) == x * Pow(256, |s|) + LeValue(s)
  {
    ReversedValue(256, s, x);
  }

  /** Multiplying one more byte `x` keeps the invariant of the in-place multiplication. */
  lemma MultiplyStep(low: seq<nat>, before: seq<nat>, x: nat, carry: nat, digit: nat, p: nat)
    requires |low| == |before| && p == Pow(256, |low|)
    requires LeValue(low) + carry * p == LeValue(before) * 58 + digit
    ensures var cur := x * 58 + carry;
            LeValue(low + [cur % 256]) + (cur / 256) * Pow(256, |low| + 1) == LeValue(before + [x]) * 58 + digit
  {
    var cur := x * 58 + carry;
    LeAppend(low, cur % 256);
    LeAppend(before, x);
    MultiplyArithmetic(LeValue(low), LeValue(before), p, x, carry, digit,
                       LeValue(low + [cur % 256]), LeValue(before + [x]), Pow(256, |low| + 1));
  }

  /** Multiply the little-endian number in `n[..len]` by 58 in place and add `digit`; the carry is returned. */
  method MultiplyInPlace(n: array<byte>, len: nat, digit: nat) returns (carry: nat)
    requires len <= n.Length && digit < 58
    modifies n
    ensures carry < 58
    ensures forall k :: len <= k < n.Length ==> n[k] == old(n[k])
    ensures LeValue(n[..len]) + carry * Pow(256, len) == LeValue(old(n[..len])) * 58 + digit
    ensures len > 0 && old(n[len - 1]) != 0 && carry == 0 ==> n[len - 1] != 0
  {
    carry := digit;
    ghost var before := n[..len];
    for j := 0 to len
      invariant carry < 58
      invariant forall k :: j <= k < n.Length ==> n[k] == old(n[k])
      invariant LeValue(n[..j]) + carry * Pow(256, j) == LeValue(before[..j]) * 58 + digit
      invariant j > 0 && old(n[j - 1]) != 0 && carry == 0 ==> n[j - 1] != 0
    {
      var cur := n[j] * 58 + carry;
      ghost var low := n[..j];
      MultiplyStep(low, before[..j], n[j], carry, digit, Pow(256, j));
      n[j] := cur % 256;
      assert n[..j + 1] == low + [cur % 256] && before[..j + 1] == before[..j] + [before[j]];
      carry := cur / 256;
    }
    assert before[..len] == before;
  }

  /** One character: the number in `n[..len]` becomes 58 times itself plus `digit`, in at most one byte more. */
  method PushDigit(n: array<byte>, len: nat, digit: nat) returns (len': nat)
    requires len < n.Length && digit < 58
    requires len > 0 ==> n[len - 1] != 0
    modifies n
    ensures len <= len' <= len + 1
    ensures len' > 0 ==> n[len' - 1] != 0
    ensures LeValue(n[..len']) == LeValue(old(n[..len])) * 58 + digit
  {
    len' := len;
    var carry := MultiplyInPlace(n, len, digit);
    ghost var total := LeValue(old(n[..len])) * 58 + digit;
    while carry > 0
      invariant len <= len' <= len + 1 && 0 <= carry < 58 && (carry > 0 ==> len' == len)
      invariant len' > 0 && carry == 0 ==> n[len' - 1] != 0
      invariant carry > 0 ==> LeValue(n[..len']) + carry * Pow(256, len) == total
      invariant carry == 0 ==> LeValue(n[..len']) == total
      decreases carry
    {
      ghost var low := n[..len'];
      LeAppend(low, carry);
      n[len'] := carry % 256;
      assert n[..len' + 1] == low + [carry];
      len' := len' + 1;
      carry := carry / 256;
    }
  }

  lemma ReversedIsDigits(s: seq<byte>)
    requires s != [] ==> s[|s| - 1] != 0
    ensures Reversed(s) == Digits(256, LeValue(s))
  {
    var t: seq<nat> := s;
    assert Reversed(s) == Reversed(t);
    DigitsOfValue(256, Reversed(t));
  }

  method Decode(s: string) returns (r: Result<seq<byte>, char>)
    ensures r.Ok? <==> Decodable(s)
    ensures r.Ok? ==> r.value == Decoded(s)
    ensures r.Err? ==> exists i :: 0 <= i < |s| && s[i] == r.error && Code(s[i]) == 58 && Decodable(s[..i])
  {
    var zeros := 0;
    while zeros < |s| && s[zeros] == '1'
      invariant zeros <= |s| && LeadingOnes(s) == zeros + LeadingOnes(s[zeros..])
    {
      zeros := zeros + 1;
    }
    var n := new byte[|s|](_ => 0);
    var len := 0;
    ghost var codes := Codes(s);
    for i := 0 to |s|
      invariant len <= i && (len > 0 ==> n[len - 1] != 0)
      invariant IsDigits(58, codes[..i])
      invariant LeValue(n[..len]) == Value(58, codes[..i])
    {
      var digit := Code(s[i]);
      if digit == 58 {
        assert codes[i] == 58 && Codes(s[..i]) == codes[..i];
        return Err(s[i]);
      }
      len := PushDigit(n, len, digit);
      assert codes[..i + 1] == codes[..i] + [digit];
      ValueAppend(58, codes[..i], digit);
    }
    assert codes[..|s|] == codes;
    ReversedIsDigits(n[..len]);
    r := Ok(seq(zeros, _ => 0) + Reversed(n[..len]));
  }

  // ----- the two directions are inverse

  lemma CodesOfText(digits: seq<nat>)
    requires IsDigits(58, digits)
    ensures Codes(Text(digits)) == digits && OverAlphabet(Text(digits))
  {
    var text := Text(digits);
    forall i | 0 <= i < |digits|
      ensures text[i] as nat < 256 && Code(text[i]) == digits[i]
    {
      assert text[i] == DigitChar(digits[i]);
      DigitOfChar(digits[i]);
    }
  }

  lemma {:induction false} OnesOfText(digits: seq<nat>)
    requires IsDigits(58, digits)
    ensures LeadingOnes(Text(digits)) == LeadingZeros(digits)
  {
    if digits != [] {
      DigitOfChar(digits[0]);
      OnesOfText(digits[1..]);
      assert Text(digits)[1..] == Text(digits[1..]);
    }
  }

  lemma TextCodes(digits: seq<nat>)
    requires IsDigits(58, digits)
    ensures Codes(Text(digits)) == digits && OverAlphabet(Text(digits)) && Decodable(Text(digits))
    ensures LeadingOnes(Text(digits)) == LeadingZeros(digits)
  {
    CodesOfText(digits);
    OnesOfText(digits);
  }

  lemma CodesText(s: string)
    requires OverAlphabet(s)
    ensures IsDigits(58, Codes(s)) && Text(Codes(s)) == s
  {
  }

  /** Decoding inverts encoding on every byte string, leading zero bytes included. */
  lemma DecodeEncode(bytes: seq<byte>)
    ensures Decodable(Encoded(bytes)) && Decoded(Encoded(bytes)) == bytes
  {
    RecodeRoundTrip(256, 58, bytes);
    TextCodes(Recode(256, 58, bytes));
  }

  /** Encoding inverts decoding on every string over the alphabet, leading '1' characters included. */
  lemma EncodeDecode(s: string)
    requires OverAlphabet(s)
    ensures IsDigits(256, Decoded(s))
    ensures Encoded(Decoded(s)) == s
  {
    CodesText(s);
    TextCodes(Codes(s));
    RecodeRoundTrip(58, 256, Codes(s));
  }

  lemma CodeIs(c: char)
    ensures Code(c) < 58 <==> (c as nat % 256) as char in ALPHABET
  {
    var b := (c as nat % 256) as char;
    if Code(c) < 58 {
      AlphabetByDigit(Code(c));
      assert ALPHABET[Code(c)] == b;
    }
    if b in ALPHABET {
      var d: nat :| d < |ALPHABET| && ALPHABET[d] == b;
      AlphabetByDigit(0);
      AlphabetByDigit(d);
      DigitOfChar(d);
    }
  }

  lemma OverAlphabetIs(s: string)
    ensures OverAlphabet(s) <==> forall i :: 0 <= i < |s| ==> s[i] in ALPHABET
  {
    forall i | 0 <= i < |s|
      ensures s[i] as nat < 256 && Code(s[i]) < 58 <==> s[i] in ALPHABET
    {
      NarrowCode(s[i]);
    }
  }

  lemma NarrowCode(c: char)
    ensures c as nat < 256 && Code(c) < 58 <==> c in ALPHABET
  {
    NarrowIn(c, ALPHABET);
  }

  lemma NarrowIn(c: char, alphabet: string)
    requires alphabet == ALPHABET
    ensures c as nat < 256 && Code(c) < 58 <==> c in alphabet
  {
    if c as nat < 256 {
      CodeIs(c);
      LowByte(c);
    } else if c in alphabet {
      InAlphabetNarrow(c);
    }
  }

  lemma LowByte(c: char)
    requires c as nat < 256
    ensures (c as nat % 256) as char == c
  {
  }

  lemma DecodableIs(s: string)
    ensures Decodable(s) <==> forall i :: 0 <= i < |s| ==> (s[i] as nat % 256) as char in ALPHABET
  {
    forall i | 0 <= i < |s|
      ensures Codes(s)[i] < 58 <==> (s[i] as nat % 256) as char in ALPHABET
    {
      CodeIs(s[i]);
    }
  }

  lemma InAlphabetNarrow(c: char)
    requires c in ALPHABET
    ensures c as nat < 256
  {
    var d: nat :| d < |ALPHABET| && ALPHABET[d] == c;
    AlphabetByDigit(0);
    AlphabetByDigit(d);
    DigitOfChar(d);
  }

  /**
  A string is decoded exactly when the low byte of every character is in the alphabet, and encoding gives it back
  exactly when every character is.
  */
  lemma EncodeDecodeExactlyWhen(s: string)
    ensures Decodable(s) <==> forall i :: 0 <= i < |s| ==> (s[i] as nat % 256) as char in ALPHABET
    ensures Decodable(s) ==>
              IsDigits(256, Decoded(s)) &&
              (Encoded(Decoded(s)) == s <==> forall i :: 0 <= i < |s| ==> s[i] in ALPHABET)
  {
    OverAlphabetIs(s);
    DecodableIs(s);
    DecodedIsBytes(s);
    if OverAlphabet(s) {
      EncodeDecode(s);
    } else if Decodable(s) {
      RecodeRoundTrip(256, 58, Decoded(s));
      TextCodes(Recode(256, 58, Decoded(s)));
    }
  }

  lemma DecodedIsBytes(s: string)
    ensures IsDigits(256, Decoded(s))
  {
    var n := Value(58, Codes(s));
    DigitsWellFormed(256, n);
    assert forall i :: 0 <= i < LeadingOnes(s) ==> Zeros(LeadingOnes(s))[i] == 0;
  }

  /** A character whose low byte is '2' is decoded as one, and encoding does not give it back. */
  lemma WideCharacter()
    ensures Decodable("\U{0132}") && Decoded("\U{0132}") == Decoded("2") == [1]
  {
    assert Codes("\U{0132}") == [1] && Codes("2") == [1];
    assert Value(58, [1]) == 1 by {
      assert [1][..0] == [];
    }
    assert Digits(256, 1) == [1];
  }

  // ----- Base58Check, over any checksum function

  function CheckEncoded(check: seq<nat> -> seq<byte>, version: byte, payload: seq<byte>): string
    requires |check([version] + payload)| >= 4
  {
    var buf := [version] + payload;
    Encoded(buf + check(buf)[..4])
  }

  datatype CheckError = BadCharacter | TooShort | ChecksumMismatch

  function CheckDecoded(check: seq<nat> -> seq<byte>, s: string): Result<seq<nat>, CheckError>
    requires forall b :: |check(b)| >= 4
  {
    if !Decodable(s) then Err(BadCharacter)
    else
      var raw := Decoded(s);
      if |raw| < 5 then Err(TooShort)
      else
        var payload := raw[..|raw| - 4];
        if check(payload)[..4] != raw[|raw| - 4..] then Err(ChecksumMismatch) else Ok(payload[1..])
  }

  lemma CheckRoundTrip(check: seq<nat> -> seq<byte>, version: byte, payload: seq<byte>)
    requires forall b :: |check(b)| >= 4
    ensures CheckDecoded(check, CheckEncoded(check, version, payload)) == Ok(payload)
  {
    var buf := [version] + payload;
    var raw := buf + check(buf)[..4];
    DecodeEncode(raw);
    assert raw[..|raw| - 4] == buf && raw[|raw| - 4..] == check(buf)[..4];
  }

  /** Which error a string gets: a character outside the alphabet, fewer than five bytes, or another checksum. */
  lemma CheckRefusesExactlyWhen(check: seq<nat> -> seq<byte>, s: string)
    requires forall b :: |check(b)| >= 4
    ensures var out, raw := CheckDecoded(check, s), Decoded(s);
            var good := forall i :: 0 <= i < |s| ==> (s[i] as nat % 256) as char in ALPHABET;
            && (out == Err(BadCharacter) <==> !good)
            && (out == Err(TooShort) <==> good && |raw| < 5)
            && (out == Err(ChecksumMismatch) <==>
                  good && |raw| >= 5 && check(raw[..|raw| - 4])[..4] != raw[|raw| - 4..])
  {
    DecodableIs(s);
  }

  /** Whatever Base58Check accepts is the encoding of the payload it returns, under the version it dropped. */
  lemma CheckDecodeIsEncoding(check: seq<nat> -> seq<byte>, s: string) returns (version: byte)
    requires forall b :: |check(b)| >= 4
    requires OverAlphabet(s) && CheckDecoded(check, s).Ok?
    ensures IsDigits(256, CheckDecoded(check, s).value)
    ensures CheckEncoded(check, version, CheckDecoded(check, s).value) == s
  {
    EncodeDecode(s);
    var raw := Decoded(s);
    version := raw[0];
    var payload := CheckDecoded(check, s).value;
    assert [version] + payload == raw[..|raw| - 4];
    assert raw == raw[..|raw| - 4] + raw[|raw| - 4..];
  }
}
