/** Base32 decoding in a 32-bit shift register (gateway/e2e/e2e-totp/totp.ts), proved against
    decoding over unbounded integers and against the encoder of section 6 of RFC 4648. */
module Base32 {
  import opened JsNumbers
  import opened Powers

  type Byte = b: int | 0 <= b < 256

  function Letter(d: nat): (c: char)
    requires d < 32
    ensures d < 26 ==> c as int == 'A' as int + d
    ensures 26 <= d ==> c as int == '2' as int + d - 26
  {
    if d < 26 then 'A' + d as char else '2' + (d - 26) as char
  }

  const ALPHABET := "ABCDEFGHIJKLMNOPQRSTUVWXYZ234567"

  lemma AlphabetAt(d: nat)
    requires d < 32
    ensures ALPHABET[d] == Letter(d)
  {
  }

  datatype Result<+T, +E> = Ok(value: T) | Err(error: E)

  // ---------- positional numbers ----------

  /** The number written by base-32 digits, most significant first. */
  function Value32(digits: seq<nat>): nat {
    if digits == [] then 0 else 32 * Value32(digits[..|digits| - 1]) + digits[|digits| - 1]
  }

  function Value256(bytes: seq<Byte>): nat {
    if bytes == [] then 0 else 256 * Value256(bytes[..|bytes| - 1]) + bytes[|bytes| - 1]
  }

  /** The last `len` base-256 digits of `n`. */
  function BigEndian(n: nat, len: nat): (bytes: seq<Byte>)
    ensures |bytes| == len
  {
    if len == 0 then [] else BigEndian(n / 256, len - 1) + [n % 256]
  }

  function Digits32(n: nat, len: nat): (digits: seq<nat>)
    ensures |digits| == len && forall i :: 0 <= i < len ==> digits[i] < 32
  {
    if len == 0 then [] else Digits32(n / 32, len - 1) + [n % 32]
  }

  lemma {:induction false} Value256Bound(bytes: seq<Byte>)
    ensures Value256(bytes) < Pow2(8 * |bytes|)
  {
    if bytes == [] {
    } else {
      var n := |bytes| - 1;
      Value256Bound(bytes[..n]);
      Pow2Sum(8, 8 * n);
      Pow2At8();
      assert Pow2(8 * |bytes|) == 256 * Pow2(8 * n);
    }
  }

  /** Enough bytes spell the number. */
  lemma {:induction false} ValueOfBigEndian(n: nat, len: nat)
    requires n < Pow2(8 * len)
    ensures Value256(BigEndian(n, len)) == n
  {
    if len == 0 {
    } else {
      Pow2Sum(8, 8 * (len - 1));
      Pow2At8();
      assert Pow2(8 * len) == 256 * Pow2(8 * (len - 1));
      ValueOfBigEndian(n / 256, len - 1);
      var bytes := BigEndian(n, len);
      assert bytes[..len - 1] == BigEndian(n / 256, len - 1);
    }
  }

  lemma {:induction false} BigEndianOfValue(bytes: seq<Byte>)
    ensures BigEndian(Value256(bytes), |bytes|) == bytes
  {
    if bytes == [] {
    } else {
      var n := |bytes| - 1;
      BigEndianOfValue(bytes[..n]);
      var v := Value256(bytes[..n]);
      assert (256 * v + bytes[n]) / 256 == v && (256 * v + bytes[n]) % 256 == bytes[n];
      assert bytes == bytes[..n] + [bytes[n]];
    }
  }

  lemma {:induction false} ValueOfDigits(n: nat, len: nat)
    requires n < Pow2(5 * len)
    ensures Value32(Digits32(n, len)) == n
  {
    if len == 0 {
    } else {
      Pow2Sum(5, 5 * (len - 1));
      Pow2At5();
      assert Pow2(5 * len) == 32 * Pow2(5 * (len - 1));
      ValueOfDigits(n / 32, len - 1);
      var digits := Digits32(n, len);
      assert digits[..len - 1] == Digits32(n / 32, len - 1);
    }
  }

  // ---------- the references ----------

  /** Decoding with unbounded integers: all digits are one number, the last
      `5 * |digits| % 8` bits of it are dropped, the rest is read in bytes. */
  function DecodeUnbounded(digits: seq<nat>): (bytes: seq<Byte>)
    ensures |bytes| == 5 * |digits| / 8
  {
    BigEndian(Drop(Value32(digits), 5 * |digits| % 8), 5 * |digits| / 8)
  }

  /** Section 6 of RFC 4648: the bytes are one number, extended with zero bits to a whole number
      of base-32 digits. */
  function EncodeDigits(bytes: seq<Byte>): (digits: seq<nat>)
    ensures forall i :: 0 <= i < |digits| ==> digits[i] < 32
  {
    var len := (8 * |bytes| + 4) / 5;
    Digits32(Value256(bytes) * Pow2(5 * len - 8 * |bytes|), len)
  }

  function Letters(digits: seq<nat>): (s: string)
    requires forall i :: 0 <= i < |digits| ==> digits[i] < 32
    ensures |s| == |digits|
  {
    seq(|digits|, i requires 0 <= i < |digits| => ALPHABET[digits[i]])
  }

  function Padding(n: nat): string {
    seq(n, i => '=')
  }

  /** The encoded text with `n` characters of padding; the gateway issues secrets with none. */
  function EncodePadded(bytes: seq<Byte>, n: nat): string {
    Letters(EncodeDigits(bytes)) + Padding(n)
  }

  /** The encoded text, with `=` up to a multiple of eight characters. */
  function Encode(bytes: seq<Byte>): string {
    EncodePadded(bytes, (8 - |EncodeDigits(bytes)| % 8) % 8)
  }

  lemma UnboundedInverts(bytes: seq<Byte>)
    ensures DecodeUnbounded(EncodeDigits(bytes)) == bytes
  {
    var n := |bytes|;
    var len := (8 * n + 4) / 5;
    var pad := 5 * len - 8 * n;
    var v := Value256(bytes);
    DigitCount(n, len);
    EncodedFits(bytes, pad);
    ValueOfDigits(v * Pow2(pad), len);
    DropScaled(v, pad);
    BigEndianOfValue(bytes);
  }

  lemma DigitCount(n: nat, len: nat)
    requires len == (8 * n + 4) / 5
    ensures 0 <= 5 * len - 8 * n < 5 && 5 * len / 8 == n && 5 * len % 8 == 5 * len - 8 * n
  {
  }

  lemma EncodedFits(bytes: seq<Byte>, pad: nat)
    ensures Value256(bytes) * Pow2(pad) < Pow2(8 * |bytes| + pad)
  {
    Value256Bound(bytes);
    Pow2Sum(8 * |bytes|, pad);
    Scaled(Value256(bytes), Pow2(8 * |bytes|), Pow2(pad));
  }

  lemma Scaled(v: nat, bound: nat, p: nat)
    requires v < bound && p > 0
    ensures v * p < bound * p
  {
  }

  // ---------- the text ----------

  /** `\s` of an ECMAScript regular expression. */
  predicate IsSpace(c: char) {
    || '\t' <= c <= '\r' || c == ' ' || c == '\U{A0}' || c == '\U{1680}' || '\U{2000}' <= c <= '\U{200A}'
    || c == '\U{2028}' || c == '\U{2029}' || c == '\U{202F}' || c == '\U{205F}' || c == '\U{3000}' || c == '\U{FEFF}'
  }

  /** Line ends, tabs, no-break spaces and byte order marks are spaces; U+0085 is none. */
  lemma SpacesOfScript()
    ensures IsSpace(' ') && IsSpace('\t') && IsSpace('\n') && IsSpace('\r')
    ensures IsSpace('\U{A0}') && IsSpace('\U{2028}') && IsSpace('\U{FEFF}')
    ensures !IsSpace('\U{85}') && !IsSpace('=') && !IsSpace('-')
  {
  }

  function StripPadding(s: string): string {
    if s != [] && s[|s| - 1] == '=' then StripPadding(s[..|s| - 1]) else s
  }

  function DropSpaces(s: string): string {
    if s == [] then [] else (if IsSpace(s[0]) then [] else [s[0]]) + DropSpaces(s[1..])
  }

  /** `toUpperCase`, given the case mapping of one character. */
  function Upper(s: string, fold: char -> string): string {
    if s == [] then [] else fold(s[0]) + Upper(s[1..], fold)
  }

  function Clean(secret: string, fold: char -> string): string {
    Upper(DropSpaces(StripPadding(secret)), fold)
  }

  /** Cleaning works character by character: spaces go wherever they are, everything else is mapped
      and stays in its order; and only the padding at the very end goes. */
  lemma CleanExactly(a: string, b: string, c: char, fold: char -> string)
    ensures DropSpaces(a + b) == DropSpaces(a) + DropSpaces(b)
    ensures DropSpaces([c]) == if IsSpace(c) then [] else [c]
    ensures Upper(a + b, fold) == Upper(a, fold) + Upper(b, fold)
    ensures Upper([c], fold) == fold(c)
    ensures StripPadding(a + [c]) == if c == '=' then StripPadding(a) else a + [c]
  {
    DropSpacesAppend(a, b);
    UpperAppend(a, b, fold);
    assert (a + [c])[..|a|] == a;
  }

  lemma {:induction false} DropSpacesAppend(a: string, b: string)
    ensures DropSpaces(a + b) == DropSpaces(a) + DropSpaces(b)
  {
    if a == [] {
      assert a + b == b;
    } else {
      assert (a + b)[1..] == a[1..] + b;
      DropSpacesAppend(a[1..], b);
    }
  }

  lemma {:induction false} UpperAppend(a: string, b: string, fold: char -> string)
    ensures Upper(a + b, fold) == Upper(a, fold) + Upper(b, fold)
  {
    if a == [] {
      assert a + b == b;
    } else {
      assert (a + b)[1..] == a[1..] + b;
      UpperAppend(a[1..], b, fold);
    }
  }

  /** The case mapping leaves the alphabet alone. */
  ghost predicate KeepsAlphabet(fold: char -> string) {
    forall i :: 0 <= i < 32 ==> fold(ALPHABET[i]) == [ALPHABET[i]]
  }

  /** `indexOf`: the first position of a character. */
  function IndexOf(s: string, c: char): (i: int)
    ensures -1 <= i < |s|
    ensures i == -1 ==> c !in s
    ensures i != -1 ==> s[i] == c
  {
    if s == [] then -1
    else if s[0] == c then 0
    else
      var i := IndexOf(s[1..], c);
      if i == -1 then -1 else i + 1
  }

  lemma IndexOfLetter(d: nat)
    requires d < 32
    ensures IndexOf(ALPHABET, ALPHABET[d]) == d
  {
    var i := IndexOf(ALPHABET, ALPHABET[d]);
    AlphabetAt(i);
    AlphabetAt(d);
  }

  /** The digits of a cleaned text, or its first character outside the alphabet. */
  function DigitsOf(clean: string, alphabet: string): (r: Result<seq<nat>, char>)
    ensures r.Ok? ==> |r.value| == |clean| && forall i :: 0 <= i < |clean| ==> r.value[i] < |alphabet|
  {
    if clean == [] then Ok([])
    else
      var n := |clean| - 1;
      var init := DigitsOf(clean[..n], alphabet);
      if init.Err? then init
      else if IndexOf(alphabet, clean[n]) == -1 then Err(clean[n])
      else Ok(init.value + [IndexOf(alphabet, clean[n])])
  }

  ghost predicate FirstOutside(clean: string, alphabet: string, i: int) {
    0 <= i < |clean| && clean[i] !in alphabet && forall j :: 0 <= j < i ==> clean[j] in alphabet
  }

  /** A text is refused exactly for a character outside the alphabet, and the first is named;
      otherwise every digit is the index of its character. */
  lemma {:induction false} RefusedExactly(clean: string, alphabet: string)
    ensures DigitsOf(clean, alphabet).Err? ==>
      exists i :: FirstOutside(clean, alphabet, i) && DigitsOf(clean, alphabet).error == clean[i]
    ensures DigitsOf(clean, alphabet).Ok? ==>
      forall i :: 0 <= i < |clean| ==>
        clean[i] in alphabet && DigitsOf(clean, alphabet).value[i] == IndexOf(alphabet, clean[i])
  {
    if clean == [] {
    } else {
      var n := |clean| - 1;
      RefusedExactly(clean[..n], alphabet);
      if DigitsOf(clean[..n], alphabet).Err? {
        var i :| FirstOutside(clean[..n], alphabet, i) && DigitsOf(clean[..n], alphabet).error == clean[..n][i];
        assert FirstOutside(clean, alphabet, i);
      } else {
        assert forall i :: 0 <= i < n ==> clean[i] == clean[..n][i];
        if clean[n] !in alphabet {
          assert FirstOutside(clean, alphabet, n);
        }
      }
    }
  }

  // ---------- the shift register ----------

  /** Decoding as promised: unbounded, on the cleaned text. */
  function Decoded(secret: string, fold: char -> string): Result<seq<Byte>, char> {
    DecodedClean(Clean(secret, fold), ALPHABET)
  }

  function DecodedClean(clean: string, alphabet: string): Result<seq<Byte>, char> {
    match DigitsOf(clean, alphabet)
    case Err(c) => Err(c)
    case Ok(digits) => Ok(DecodeUnbounded(digits))
  }

  /** The register holds the last 32 bits of the number. */
  ghost predicate Holds(value: int, v: nat) {
    ToUint32(value) == Keep(v, 32)
  }

  lemma RegisterStep(value: int, v: nat, d: nat)
    requires Holds(value, v) && d < 32
    ensures Holds(Or(Shl(value, 5), d), 32 * v + d)
  {
    Keep32(v);
    Keep32(32 * v + d);
    ShiftIn5(value, d);
    Times32(value, d);
    Times32(v, d);
    Low27(value);
    Low27(v);
  }

  /** No byte is complete yet. */
  lemma TooFewBits(v: nat, d: nat, bits: nat)
    requires d < 32
    ensures Drop(32 * v + d, bits + 5) == Drop(v, bits)
  {
    DropDrop(32 * v + d, 5, bits);
    DropFew(32 * v + d);
  }

  /** The byte that leaves the register is the next byte of the number. */
  lemma NextByte(value: int, v: nat, bits: nat)
    requires Holds(value, v) && bits <= 24
    ensures And(UShr(value, bits), 0xff) == Drop(v, bits) % 256
  {
    var shifted := UShr(value, bits);
    DropShrinks(ToUint32(value), bits);
    AndByte(shifted, 0xff);
    KeepOfDrop(v, 32, bits, 8);
    Keep8(shifted);
    Keep8(Drop(v, bits));
  }

  lemma BitCount(n: nat, bits: nat)
    requires bits == 5 * n % 8
    ensures bits < 3 ==> 5 * (n + 1) % 8 == bits + 5 && 5 * (n + 1) / 8 == 5 * n / 8
    ensures 3 <= bits ==> 5 * (n + 1) % 8 == bits - 3 && 5 * (n + 1) / 8 == 5 * n / 8 + 1
  {
  }

  /** What one more digit does to the unbounded result. */
  lemma OneMoreDigit(digits: seq<nat>, d: nat, bits: nat)
    requires d < 32 && bits == 5 * |digits| % 8
    ensures var v, more := Value32(digits), digits + [d];
      && Value32(more) == 32 * v + d
      && (bits < 3 ==> DecodeUnbounded(more) == DecodeUnbounded(digits))
      && (3 <= bits ==> DecodeUnbounded(more) == DecodeUnbounded(digits) + [Drop(32 * v + d, bits - 3) % 256])
  {
    var v, more := Value32(digits), digits + [d];
    assert more[..|digits|] == digits;
    BitCount(|digits|, bits);
    TooFewBits(v, d, bits);
    if 3 <= bits {
      var kept := Drop(32 * v + d, bits - 3);
      DropDrop(32 * v + d, bits - 3, 8);
      DropFew(kept);
      assert kept / 256 == Drop(v, bits);
    }
  }

  lemma {:induction false} RefusalStands(clean: string, alphabet: string, n: nat)
    requires n <= |clean| && DigitsOf(clean[..n], alphabet).Err?
    ensures DigitsOf(clean, alphabet) == DigitsOf(clean[..n], alphabet)
  {
    if n == |clean| {
      assert clean[..n] == clean;
    } else {
      var m := |clean| - 1;
      assert clean[..m][..n] == clean[..n];
      RefusalStands(clean[..m], alphabet, n);
    }
  }

  /** One turn of the loop: the register takes the digit in, and if a byte is complete it is the next
      byte of the unbounded result. */
  lemma DecodeStep(value: int, digits: seq<nat>, d: nat, bits: nat)
    requires d < 32 && bits == 5 * |digits| % 8 && Holds(value, Value32(digits))
    ensures var now, more := Or(Shl(value, 5), d), digits + [d];
      && Holds(now, Value32(more))
      && 5 * |more| % 8 == (if bits < 3 then bits + 5 else bits - 3)
      && (3 <= bits ==> 0 <= And(UShr(now, bits - 3), 0xff) < 256)
      && DecodeUnbounded(more) == DecodeUnbounded(digits) + (if bits < 3 then [] else [And(UShr(now, bits - 3), 0xff)])
  {
    OneMoreDigit(digits, d, bits);
    BitCount(|digits|, bits);
    RegisterStep(value, Value32(digits), d);
    if 3 <= bits {
      NextByte(Or(Shl(value, 5), d), Value32(digits + [d]), bits - 3);
    }
  }

  /** `base32Decode`: five bits in, eight bits out, in 32 bits that overflow all the time. */
  method Base32Decode(secret: string, fold: char -> string) returns (r: Result<seq<Byte>, char>)
    ensures r == Decoded(secret, fold)
  {
    r := DecodeClean(Clean(secret, fold), ALPHABET);
  }

  /** The register after some digits: what it holds, how many bits of it are left over, and the bytes
      that have left it. */
  ghost predicate Registers(digits: seq<nat>, value: int, bits: nat, out: seq<Byte>) {
    bits == 5 * |digits| % 8 && Holds(value, Value32(digits)) && out == DecodeUnbounded(digits)
  }

  lemma RegistersNothing()
    ensures Registers([], 0, 0, [])
  {
    Keep32(0);
  }

  /** The first `i` characters are these digits. */
  ghost predicate Reads(clean: string, alphabet: string, i: nat, digits: seq<nat>) {
    i <= |clean| && |digits| == i && DigitsOf(clean[..i], alphabet) == Ok(digits)
  }

  lemma ReadsMore(clean: string, alphabet: string, i: nat, digits: seq<nat>)
    requires i < |clean| && Reads(clean, alphabet, i, digits)
    ensures var idx := IndexOf(alphabet, clean[i]);
      if idx == -1 then DecodedClean(clean, alphabet) == Err(clean[i])
      else Reads(clean, alphabet, i + 1, digits + [idx])
  {
    assert clean[..i + 1][..i] == clean[..i];
    if IndexOf(alphabet, clean[i]) == -1 {
      RefusalStands(clean, alphabet, i + 1);
    }
  }

  lemma ReadsAll(clean: string, alphabet: string, digits: seq<nat>, value: int, bits: nat, out: seq<Byte>)
    requires Reads(clean, alphabet, |clean|, digits) && Registers(digits, value, bits, out)
    ensures DecodedClean(clean, alphabet) == Ok(out)
  {
    assert clean[..|clean|] == clean;
  }

  lemma RegistersMore(digits: seq<nat>, value: int, bits: nat, out: seq<Byte>, d: nat)
    requires d < 32 && Registers(digits, value, bits, out)
    ensures var now := Or(Shl(value, 5), d);
      if bits < 3 then Registers(digits + [d], now, bits + 5, out)
      else
        var byte := And(UShr(now, bits - 3), 0xff);
        0 <= byte < 256 && Registers(digits + [d], now, bits - 3, out + [byte])
  {
    DecodeStep(value, digits, d, bits);
  }

  /** The second half of the loop body: five bits in and, once there are eight, a byte out. */
  method ShiftIn(value: int, bits: nat, out: seq<Byte>, idx: nat, ghost digits: seq<nat>)
    returns (now: int, left: nat, more: seq<Byte>)
    requires idx < 32 && Registers(digits, value, bits, out)
    ensures Registers(digits + [idx], now, left, more)
  {
    RegistersMore(digits, value, bits, out, idx);
    now := Or(Shl(value, 5), idx);
    left, more := bits + 5, out;
    if left >= 8 {
      left := left - 8;
      more := more + [And(UShr(now, left), 0xff)];
    }
  }

  /** The loop of `base32Decode`. */
  method DecodeClean(clean: string, alphabet: string) returns (r: Result<seq<Byte>, char>)
    requires |alphabet| == 32
    ensures r == DecodedClean(clean, alphabet)
  {
    var bits, value := 0, 0;
    var out: seq<Byte> := [];
    ghost var digits: seq<nat> := [];
    RegistersNothing();
    var i := 0;
    while i < |clean|
      invariant Reads(clean, alphabet, i, digits)
      invariant Registers(digits, value, bits, out)
    {
      var idx := IndexOf(alphabet, clean[i]);
      ReadsMore(clean, alphabet, i, digits);
      if idx == -1 {
        return Err(clean[i]);
      }
      value, bits, out := ShiftIn(value, bits, out, idx, digits);
      digits := digits + [idx];
      i := i + 1;
    }
    ReadsAll(clean, alphabet, digits, value, bits, out);
    r := Ok(out);
  }

  // ---------- the round trip ----------

  lemma {:induction false} StripAll(s: string, n: nat)
    requires s == [] || s[|s| - 1] != '='
    ensures StripPadding(s + Padding(n)) == s
  {
    var all := s + Padding(n);
    if n == 0 {
      assert all == s;
    } else {
      assert all[|all| - 1] == '=' && all[..|all| - 1] == s + Padding(n - 1);
      StripAll(s, n - 1);
    }
  }

  lemma LetterIsPlain(d: nat)
    requires d < 32
    ensures !IsSpace(ALPHABET[d]) && ALPHABET[d] != '='
  {
  }

  lemma {:induction false} CleanLetters(s: string, fold: char -> string)
    requires KeepsAlphabet(fold)
    requires forall i :: 0 <= i < |s| ==> s[i] in ALPHABET
    ensures Upper(DropSpaces(s), fold) == s
  {
    if s == [] {
    } else {
      var d :| 0 <= d < 32 && ALPHABET[d] == s[0];
      LetterIsPlain(d);
      CleanLetters(s[1..], fold);
      assert DropSpaces(s) == [s[0]] + DropSpaces(s[1..]);
    }
  }

  lemma {:induction false} DigitsOfLetters(digits: seq<nat>)
    requires forall i :: 0 <= i < |digits| ==> digits[i] < 32
    ensures DigitsOf(Letters(digits), ALPHABET) == Ok(digits)
  {
    if digits == [] {
    } else {
      var n := |digits| - 1;
      DigitsOfLetters(digits[..n]);
      assert Letters(digits)[..n] == Letters(digits[..n]);
      IndexOfLetter(digits[n]);
      assert digits == digits[..n] + [digits[n]];
    }
  }

  lemma CleanOfEncoded(digits: seq<nat>, n: nat, fold: char -> string)
    requires KeepsAlphabet(fold)
    requires forall i :: 0 <= i < |digits| ==> digits[i] < 32
    ensures Clean(Letters(digits) + Padding(n), fold) == Letters(digits)
  {
    var letters := Letters(digits);
    if digits != [] {
      LetterIsPlain(digits[|digits| - 1]);
    }
    StripAll(letters, n);
    forall i | 0 <= i < |letters| ensures letters[i] in ALPHABET {
      assert letters[i] == ALPHABET[digits[i]];
    }
    CleanLetters(letters, fold);
  }

  lemma CleanOfText(bytes: seq<Byte>, n: nat, fold: char -> string)
    requires KeepsAlphabet(fold)
    ensures Clean(EncodePadded(bytes, n), fold) == Letters(EncodeDigits(bytes))
  {
    CleanOfEncoded(EncodeDigits(bytes), n, fold);
  }

  /** Decoding inverts the encoder of section 6 of RFC 4648 on every byte string, whether its text
      is padded in full, as `Encode` does it, or in part or not at all. */
  lemma RoundTrip(bytes: seq<Byte>, n: nat, fold: char -> string)
    requires KeepsAlphabet(fold)
    ensures Decoded(EncodePadded(bytes, n), fold) == Ok(bytes)
  {
    CleanOfText(bytes, n, fold);
    LettersDecode(bytes);
  }

  lemma LettersDecode(bytes: seq<Byte>)
    ensures DecodedClean(Letters(EncodeDigits(bytes)), ALPHABET) == Ok(bytes)
  {
    DigitsOfLetters(EncodeDigits(bytes));
    UnboundedInverts(bytes);
  }

  /** `text` is `letters` in any mix of cases, with any spaces in between. */
  predicate Dressed(text: string, letters: string, fold: char -> string) {
    if text == [] then letters == []
    else if IsSpace(text[0]) then Dressed(text[1..], letters, fold)
    else letters != [] && fold(text[0]) == [letters[0]] && Dressed(text[1..], letters[1..], fold)
  }

  lemma CleanFirst(text: string, fold: char -> string)
    requires text != []
    ensures Upper(DropSpaces(text), fold) ==
      (if IsSpace(text[0]) then [] else fold(text[0])) + Upper(DropSpaces(text[1..]), fold)
  {
    if IsSpace(text[0]) {
      assert DropSpaces(text) == DropSpaces(text[1..]);
    } else {
      var rest := DropSpaces(text[1..]);
      assert DropSpaces(text) == [text[0]] + rest && ([text[0]] + rest)[1..] == rest;
    }
  }

  lemma {:induction false} DressedCleans(text: string, letters: string, fold: char -> string)
    requires Dressed(text, letters, fold)
    ensures Upper(DropSpaces(text), fold) == letters
  {
    if text == [] {
    } else {
      CleanFirst(text, fold);
      DressedCleans(text[1..], if IsSpace(text[0]) then letters else letters[1..], fold);
    }
  }

  /** The round trip as people type it: in groups, in lower case, with or without the padding at the
      end, an encoded text decodes to its bytes all the same. */
  lemma RoundTripAsTyped(bytes: seq<Byte>, text: string, n: nat, fold: char -> string)
    requires Dressed(text, Letters(EncodeDigits(bytes)), fold) && '=' !in text
    ensures Decoded(text + Padding(n), fold) == Ok(bytes)
  {
    StripAll(text, n);
    DressedCleans(text, Letters(EncodeDigits(bytes)), fold);
    LettersDecode(bytes);
  }

  /** But a space after the padding keeps the padding in, which is then refused. */
  lemma SpaceAfterPadding(bytes: seq<Byte>, n: nat, fold: char -> string)
    requires KeepsAlphabet(fold) && fold('=') == "=" && n > 0
    ensures Decoded(EncodePadded(bytes, n) + " ", fold).Err?
  {
    var letters := Letters(EncodeDigits(bytes));
    var text := letters + Padding(n);
    PaddingStays(text, fold);
    UpperAppend(DropSpaces(letters), DropSpaces(Padding(n)), fold);
    DropSpacesAppend(letters, Padding(n));
    PaddingCleans(n, fold);
    RefusesPadding(Upper(DropSpaces(letters), fold), n);
  }

  lemma PaddingStays(text: string, fold: char -> string)
    ensures Clean(text + " ", fold) == Upper(DropSpaces(text), fold)
  {
    CleanExactly(text, " ", ' ', fold);
    assert DropSpaces(text) + [] == DropSpaces(text);
  }

  lemma {:induction false} PaddingCleans(n: nat, fold: char -> string)
    requires fold('=') == "="
    ensures Upper(DropSpaces(Padding(n)), fold) == Padding(n)
  {
    if n == 0 {
    } else {
      assert Padding(n)[1..] == Padding(n - 1);
      PaddingCleans(n - 1, fold);
      assert DropSpaces(Padding(n)) == ['='] + DropSpaces(Padding(n - 1));
      assert Padding(n) == ['='] + Padding(n - 1);
    }
  }

  lemma RefusesPadding(letters: string, n: nat)
    requires n > 0
    ensures DigitsOf(letters + Padding(n), ALPHABET).Err?
  {
    var clean := letters + Padding(n);
    RefusedExactly(clean, ALPHABET);
    assert clean[|letters|] == '=';
    if DigitsOf(clean, ALPHABET).Ok? {
      assert clean[|letters|] in ALPHABET;
      var d :| 0 <= d < 32 && ALPHABET[d] == '=';
      LetterIsPlain(d);
      assert false;
    }
  }

  /** Test vectors of section 10 of RFC 4648: "f" is "MY" and "fo" is "MZXQ". */
  lemma StandardVectors()
    ensures EncodeDigits([]) == [] && EncodeDigits([102]) == [12, 24] && EncodeDigits([102, 111]) == [12, 25, 23, 16]
  {
    Vector1();
    Vector2();
  }

  lemma Vector1()
    ensures EncodeDigits([102]) == [12, 24]
  {
    assert Value256([102]) == 102 && Pow2(2) == 4;
    assert Digits32(408, 2) == [12, 24];
  }

  lemma Vector2()
    ensures EncodeDigits([102, 111]) == [12, 25, 23, 16]
  {
    assert [102, 111][..1] == [102];
    assert Value256([102, 111]) == 256 * Value256([102]) + 111;
    Pow2At4();
    FourDigits();
  }

  lemma FourDigits()
    ensures Digits32(419568, 4) == [12, 25, 23, 16]
  {
    assert Digits32(409, 2) == [12, 25];
    assert Digits32(13111, 3) == Digits32(409, 2) + [23];
    assert Digits32(419568, 4) == Digits32(13111, 3) + [16];
  }
}
