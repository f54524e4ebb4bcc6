/** Base58 and Base58Check (src/core/encoding/base58.cpp). */
module Base58 {
  import opened Common
  import opened Radix

  /** The alphanumeric characters without "0", "I", "O" and "l". */
  const ALPHABET: string := "123456789" + "ABCDEFGH" + "JKLMN" + "PQRSTUVWXYZ" + "abcdefghijk" + "mnopqrstuvwxyz"
  const MAX_INPUT := 1024
  const CHECKSUM_LENGTH := 4

  /** The place of a character in the alphabet. */
  function Find(c: char): Option<int> {
    FindFrom(c, 0)
  }

  function FindFrom(c: char, i: nat): (r: Option<int>)
    requires i <= |ALPHABET|
    ensures r.Some? ==> i <= r.value < |ALPHABET| && ALPHABET[r.value] == c
    ensures r.None? ==> forall j | i <= j < |ALPHABET| :: ALPHABET[j] != c
    decreases |ALPHABET| - i
  {
    if i == |ALPHABET| then None
    else if ALPHABET[i] == c then Some(i)
    else FindFrom(c, i + 1)
  }

  lemma AlphabetSize()
    ensures |ALPHABET| == 58
  {
  }

  /** Characters that follow one another from `code` on. */
  predicate Consecutive(s: string, code: int) {
    forall i | 0 <= i < |s| :: s[i] as int == code + i
  }

  /** The character code of a digit. */
  lemma AlphabetCode(d: int)
    requires 0 <= d < 58
    ensures |ALPHABET| == 58
    ensures ALPHABET[d] as int ==
      if d < 9 then 49 + d
      else if d < 17 then 65 + (d - 9)
      else if d < 22 then 74 + (d - 17)
      else if d < 33 then 80 + (d - 22)
      else if d < 44 then 97 + (d - 33)
      else 109 + (d - 44)
  {
    assert Consecutive("123456789", 49) && Consecutive("ABCDEFGH", 65) && Consecutive("JKLMN", 74);
    assert Consecutive("PQRSTUVWXYZ", 80) && Consecutive("abcdefghijk", 97) && Consecutive("mnopqrstuvwxyz", 109);
  }

  /** The characters are in increasing order, so no two are the same. */
  lemma AlphabetIncreases(i: int, j: int)
    requires 0 <= i < j < 58
    ensures |ALPHABET| == 58 && ALPHABET[i] < ALPHABET[j]
  {
    AlphabetCode(i);
    AlphabetCode(j);
  }

  lemma FindDigit(d: int)
    requires 0 <= d < 58
    ensures |ALPHABET| == 58 && Find(ALPHABET[d]) == Some(d)
  {
    hide FindFrom;
    AlphabetSize();
    var r := FindFrom(ALPHABET[d], 0);
    assert r.Some?;
    if r.value < d { AlphabetIncreases(r.value, d); }
    if d < r.value { AlphabetIncreases(d, r.value); }
  }

  function Text(ds: seq<int>): string
    requires AreDigits(ds, 58)
  {
    AlphabetSize();
    seq(|ds|, i requires 0 <= i < |ds| => ALPHABET[ds[i]])
  }

  /** The digits of a text, or nothing if some character is not in the alphabet. */
  function Digits(s: string): (r: Option<seq<int>>)
    ensures r.Some? ==> |r.value| == |s| && AreDigits(r.value, 58)
  {
    AlphabetSize();
    if s == [] then Some([])
    else match (Digits(s[..|s| - 1]), Find(s[|s| - 1]))
      case (Some(ds), Some(d)) => Some(ds + [d])
      case _ => None
  }

  lemma {:induction false} DigitsOfText(ds: seq<int>)
    requires AreDigits(ds, 58)
    ensures Digits(Text(ds)) == Some(ds)
    decreases |ds|
  {
    hide Find;
    if ds != [] {
      var front, last := ds[..|ds| - 1], ds[|ds| - 1];
      assert Text(ds)[..|ds| - 1] == Text(front);
      DigitsOfText(front);
      FindDigit(last);
      assert ds == front + [last];
    }
  }

  lemma {:induction false} TextOfDigits(s: string)
    requires Digits(s).Some?
    ensures Text(Digits(s).value) == s
    decreases |s|
  {
    if s != [] {
      TextOfDigits(s[..|s| - 1]);
      var ds := Digits(s).value;
      assert ds[..|s| - 1] == Digits(s[..|s| - 1]).value;
      assert Text(ds)[..|s| - 1] == Text(ds[..|s| - 1]);
      assert s == s[..|s| - 1] + [s[|s| - 1]];
    }
  }

  /** What `encode` answers for an input. */
  function Encoded(input: Bytes): Outcome<string> {
    if |input| > MAX_INPUT then Error(InputTooLarge)
    else
      ConvertDigits(input, 256, 58);
      Done(Text(Convert(input, 256, 58)))
  }

  /** What `decode` answers for a text. */
  function Decoded(input: string): Outcome<Bytes> {
    match Digits(input)
    case None => Error(IllegalBase58Digit)
    case Some(ds) =>
      ConvertDigits(ds, 58, 256);
      Done(Convert(ds, 58, 256))
  }

  lemma TextPrepend(d: int, ds: seq<int>)
    requires 0 <= d < 58 && AreDigits(ds, 58)
    ensures |ALPHABET| == 58 && AreDigits([d] + ds, 58) && Text([d] + ds) == [ALPHABET[d]] + Text(ds)
  {
    AlphabetSize();
  }

  /** One more leading zero. */
  lemma MoreZeros(k: nat, ds: seq<int>)
    ensures Zeros(k + 1) + ds == [0] + (Zeros(k) + ds)
  {
    assert Zeros(k + 1) == [0] + Zeros(k);
  }

  /** The bytes as one number. */
  method ToInteger(input: Bytes) returns (value: int)
    ensures value == Value(input, 256) >= 0
  {
    value := 0;
    var i := 0;
    while i < |input|
      invariant 0 <= i <= |input|
      invariant value == Value(input[..i], 256) >= 0
    {
      value := value * 256 + input[i];
      assert input[..i + 1][..i] == input[..i];
      i := i + 1;
    }
    assert input[..i] == input;
  }

  /** The digits of a number, put in front one by one. */
  method ToText(number: nat) returns (encoded: string)
    ensures encoded == Text(Minimal(number, 58))
  {
    hide Text, Minimal;
    AlphabetSize();
    var value: int := number;
    ghost var whole := Minimal(value, 58);
    ghost var digits: seq<int> := [];
    encoded := "";
    NoText();
    assert whole + digits == whole;
    while value != 0
      invariant value >= 0
      invariant AreDigits(digits, 58) && encoded == Text(digits)
      invariant whole == Minimal(value, 58) + digits
      decreases value
    {
      var rem := value % 58;
      MinimalStep(value, 58);
      TextPrepend(rem, digits);
      assert Minimal(value / 58, 58) + [rem] + digits == Minimal(value / 58, 58) + ([rem] + digits);
      value := value / 58;
      encoded := [ALPHABET[rem]] + encoded;
      digits := [rem] + digits;
    }
    MinimalZero(58);
    assert whole == digits;
  }

  /** `encode` */
  method Encode(input: Bytes) returns (r: Outcome<string>)
    ensures r == Encoded(input)
  {
    hide Text, Minimal, LeadingZeros, Zeros, Value;
    if |input| > MAX_INPUT { return Error(InputTooLarge); }
    var value := ToInteger(input);
    var encoded := ToText(value);
    ghost var digits := Minimal(value, 58);
    var i := 0;
    NoZeros(digits);
    while i < |input| && input[i] == 0
      invariant 0 <= i <= LeadingZeros(input)
      invariant AreDigits(Zeros(i) + digits, 58) && encoded == Text(Zeros(i) + digits)
    {
      LeadingZeroAt(input, i);
      MoreZeros(i, digits);
      TextPrepend(0, Zeros(i) + digits);
      AlphabetCode(0);
      encoded := ['1'] + encoded;
      i := i + 1;
    }
    if i < |input| { LeadingZeroAt(input, i); }
    return Done(encoded);
  }

  lemma NoText()
    ensures Text([]) == ""
  {
  }

  lemma NoZeros(ds: seq<int>)
    ensures Zeros(0) + ds == ds
  {
  }

  lemma MinimalStep(v: nat, base: int)
    requires base > 1 && v > 0
    ensures Minimal(v, base) == Minimal(v / base, base) + [v % base]
    ensures 0 <= v / base < v
  {
    Shrinks(v, base);
  }

  lemma MinimalZero(base: int)
    requires base > 1
    ensures Minimal(0, base) == []
  {
  }

  /** The first place that is not zero ends the leading zeros. */
  lemma LeadingZeroAt(ds: seq<int>, i: nat)
    requires i <= LeadingZeros(ds) && i < |ds|
    ensures ds[i] == 0 <==> i < LeadingZeros(ds)
  {
    var k := LeadingZeros(ds);
    if i < k { assert ds[i] == ds[..k][i] == Zeros(k)[i]; }
  }

  /** `decode` */
  method Decode(input: string) returns (r: Outcome<Bytes>)
    ensures r == Decoded(input)
  {
    hide Find, Digits, Minimal, LeadingZeros, Zeros;
    AlphabetSize();
    NoDigits();
    var value: int := 0;
    ghost var ds: seq<int> := [];
    var i := 0;
    while i < |input|
      invariant 0 <= i <= |input|
      invariant Digits(input[..i]) == Some(ds) && |ds| == i
      invariant value == Value(ds, 58) >= 0
    {
      var at := Find(input[i]);
      DigitsStep(input, i);
      if at.None? {
        IllegalPrefix(input, i + 1);
        return Error(IllegalBase58Digit);
      }
      value := value * 58 + at.value;
      ds := ds + [at.value];
      i := i + 1;
    }
    assert input[..i] == input;
    ghost var whole := Minimal(value, 256);
    var decoded: Bytes := [];
    assert whole + decoded == whole;
    while value != 0
      invariant value >= 0
      invariant whole == Minimal(value, 256) + decoded
      decreases value
    {
      var rem := value % 256;
      MinimalStep(value, 256);
      assert Minimal(value / 256, 256) + [rem] + decoded == Minimal(value / 256, 256) + ([rem] + decoded);
      value := value / 256;
      decoded := [rem] + decoded;
    }
    assert whole == decoded by { MinimalZero(256); }
    i := 0;
    assert Zeros(0) + decoded == decoded by { NoZeros(decoded); }
    while i < |input| && input[i] == '1'
      invariant 0 <= i <= LeadingZeros(ds)
      invariant decoded == Zeros(i) + whole
    {
      DigitZero(input, ds, i);
      LeadingZeroAt(ds, i);
      MoreZeros(i, whole);
      decoded := [0] + decoded;
      i := i + 1;
    }
    if i < |input| {
      DigitZero(input, ds, i);
      LeadingZeroAt(ds, i);
    }
    return Done(decoded);
  }

  lemma NoDigits()
    ensures Digits([]) == Some([])
  {
  }

  lemma DigitsStep(s: string, i: nat)
    requires i < |s| && Digits(s[..i]).Some?
    ensures Digits(s[..i + 1]) == if Find(s[i]).Some? then Some(Digits(s[..i]).value + [Find(s[i]).value]) else None
  {
    hide Find;
    assert s[..i + 1][..i] == s[..i];
  }

  lemma {:induction false} IllegalPrefix(s: string, i: nat)
    requires i <= |s| && Digits(s[..i]).None?
    ensures Digits(s).None?
    decreases |s| - i
  {
    hide Find;
    if i == |s| {
      assert s[..i] == s;
    } else {
      assert s[..i + 1][..i] == s[..i];
      IllegalPrefix(s, i + 1);
    }
  }

  /** Only the character "1" stands for the digit zero. */
  lemma DigitZero(s: string, ds: seq<int>, i: nat)
    requires Digits(s) == Some(ds) && i < |s|
    ensures |ds| == |s| && (ds[i] == 0 <==> s[i] == '1')
  {
    hide Find, Digits;
    AlphabetSize();
    TextOfDigits(s);
    assert s[i] == ALPHABET[ds[i]];
    AlphabetCode(ds[i]);
  }

  /** Decoding undoes encoding, on every input that is encoded. */
  lemma DecodeEncode(input: Bytes)
    ensures |input| > 1024 <==> Encoded(input) == Error(InputTooLarge)
    ensures |input| <= 1024 ==> Encoded(input).Done? && Decoded(Encoded(input).value) == Done(input)
  {
    hide Convert, Text, Digits;
    ConvertBack(input, 256, 58);
    DigitsOfText(Convert(input, 256, 58));
  }

  /** Encoding undoes decoding, on every text that is decoded to something short enough. */
  lemma EncodeDecode(input: string)
    requires Decoded(input).Done?
    ensures Encoded(Decoded(input).value) == if |Decoded(input).value| <= 1024 then Done(input)
            else Error(InputTooLarge)
  {
    hide Convert, Text, Digits;
    ConvertBack(Digits(input).value, 58, 256);
    TextOfDigits(input);
  }

  lemma PowValues()
    ensures Pow(256, 8) < Pow(58, 11)
  {
    assert Pow(256, 4) == 0x1_0000_0000;
    PowAdd(256, 4, 4);
    assert Pow(58, 4) == 11_316_496 && Pow(58, 3) == 195_112;
    PowAdd(58, 4, 4);
    PowAdd(58, 8, 3);
  }

  /** The output never outgrows what is reserved for it: 138% of the input, plus one. */
  lemma EncodedLength(input: Bytes)
    requires |input| <= MAX_INPUT
    ensures |Encoded(input).value| <= |input| * 138 / 100 + 1
  {
    hide Minimal, LeadingZeros, Value, Pow;
    var k := LeadingZeros(input);
    var rest := input[k..];
    assert input == Zeros(k) + rest;
    ZerosAddNothing(k, rest, 256);
    ValueBound(rest, 256);
    var v := Value(rest, 256);
    if v == 0 {
      MinimalZero(58);
    } else {
      MinimalSize(v, 58);
      DigitsBound(|Minimal(v, 58)| - 1, |rest|);
    }
  }

  /** A number with more than `m` digits in base 58 that fits `n` bytes has 8 m below 11 n. */
  lemma DigitsBound(m: nat, n: nat)
    requires Pow(58, m) < Pow(256, n)
    ensures 8 * m < 11 * n
  {
    hide Pow;
    PowPositive(58, m);
    PowBase(Pow(58, m), Pow(256, n), 8);
    PowPow(58, m, 8);
    PowPow(256, n, 8);
    PowPow(256, 8, n);
    PowPow(58, 11, n);
    PowValues();
    PowPositive(256, 8);
    PowBase(Pow(256, 8), Pow(58, 11), n);
    assert m * 8 == 8 * m && n * 8 == 8 * n;
    assert Pow(58, 8 * m) < Pow(58, 11 * n);
    if 11 * n <= 8 * m {
      PowGrows(58, 11 * n, 8 * m);
    }
  }

  /** What `encode_check` answers; `digest` is SHA-256. */
  function EncodedCheck(input: Bytes, digest: Bytes -> Bytes32): Outcome<string> {
    Encoded(input + digest(input)[..CHECKSUM_LENGTH])
  }

  function DecodedCheck(input: string, digest: Bytes -> Bytes32): Outcome<Bytes> {
    match Decoded(input)
    case Error(e) => Error(e)
    case Done(decoded) =>
      if |decoded| < CHECKSUM_LENGTH then Error(InputTooNarrow)
      else
        var original := decoded[..|decoded| - CHECKSUM_LENGTH];
        if digest(original)[..CHECKSUM_LENGTH] != decoded[|decoded| - CHECKSUM_LENGTH..] then Error(IllegalBase58Digit)
        else Done(original)
  }

  /** `encode_check` */
  method EncodeCheck(input: Bytes, digest: Bytes -> Bytes32) returns (r: Outcome<string>)
    ensures r == EncodedCheck(input, digest)
  {
    var buffer := input;
    buffer := buffer + digest(buffer)[..CHECKSUM_LENGTH];
    r := Encode(buffer);
  }

  /** `decode_check` */
  method DecodeCheck(input: string, digest: Bytes -> Bytes32) returns (r: Outcome<Bytes>)
    ensures r == DecodedCheck(input, digest)
  {
    hide Decoded;
    r := Decode(input);
    if r.Error? { return; }
    var decoded := r.value;
    if |decoded| < CHECKSUM_LENGTH { return Error(InputTooNarrow); }
    var original := decoded[..|decoded| - CHECKSUM_LENGTH];
    var checksum := decoded[|decoded| - CHECKSUM_LENGTH..];
    if digest(original)[..CHECKSUM_LENGTH] != checksum { return Error(IllegalBase58Digit); }
    return Done(original);
  }

  /** The checked forms undo each other, for every digest. */
  lemma DecodeEncodeCheck(input: Bytes, digest: Bytes -> Bytes32)
    requires |input| + 4 <= 1024
    ensures EncodedCheck(input, digest).Done? && EncodedCheck(input, digest) == Encoded(input + digest(input)[..4])
    ensures DecodedCheck(EncodedCheck(input, digest).value, digest) == Done(input)
  {
    hide Encoded, Decoded;
    var sum := digest(input)[..CHECKSUM_LENGTH];
    DecodeEncode(input + sum);
    assert (input + sum)[..|input|] == input && (input + sum)[|input|..] == sum;
  }

  lemma EncodeDecodeCheck(input: string, digest: Bytes -> Bytes32)
    requires DecodedCheck(input, digest).Done?
    ensures var b := DecodedCheck(input, digest).value;
      EncodedCheck(b, digest) == if |b| + 4 <= 1024 then Done(input) else Error(InputTooLarge)
  {
    hide Encoded, Decoded;
    EncodeDecode(input);
    var decoded := Decoded(input).value;
    var b := decoded[..|decoded| - CHECKSUM_LENGTH];
    assert b + decoded[|decoded| - CHECKSUM_LENGTH..] == decoded;
  }

  /** A text is accepted exactly when it is the checked encoding of something, or too long to be one. */
  lemma AcceptedIsEncoded(input: string, digest: Bytes -> Bytes32, b: Bytes)
    requires |b| + CHECKSUM_LENGTH <= MAX_INPUT
    ensures DecodedCheck(input, digest) == Done(b) <==> EncodedCheck(b, digest) == Done(input)
  {
    hide Encoded, Decoded, DecodedCheck, EncodedCheck;
    if DecodedCheck(input, digest) == Done(b) {
      EncodeDecodeCheck(input, digest);
    }
    DecodeEncodeCheck(b, digest);
  }
}
