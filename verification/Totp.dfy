/** One-time codes: the generator of the end-to-end tests (gateway/e2e/e2e-totp/totp.ts) against
    sections 5.3 of RFC 4226 and 4 of RFC 6238, and against the gateway's own verifier
    (gateway/backend/internal/totp/totp.go).  HMAC-SHA-1 is any function with a 20-byte result. */
module Totp {
  import opened Wrappers
  import opened JsNumbers
  import opened Powers
  import opened Base32
  import opened Decimal

  type Mac = m: seq<Byte> | |m| == 20 witness [0, 0, 0, 0, 0, 0, 0, 0, 0, 0, 0, 0, 0, 0, 0, 0, 0, 0, 0, 0]

  type Hmac = (seq<Byte>, seq<Byte>) -> Mac

  const MILLION := 1_000_000

  // ---------- dynamic truncation ----------

  /** Section 5.3 of RFC 4226: four bytes from the offset in the last nibble, without the
      sign bit, as one big-endian number. */
  function Truncate(mac: Mac): (n: nat)
    ensures n < TWO31
  {
    var o := mac[19] % 16;
    BigEndian31(mac[o], mac[o + 1], mac[o + 2], mac[o + 3])
  }

  function BigEndian31(a: Byte, b: Byte, c: Byte, d: Byte): (n: nat)
    ensures n < TWO31
  {
    (a as int) % 128 * 0x100_0000 + (b as int) * 0x1_0000 + (c as int) * 0x100 + d
  }

  lemma Nibble(b: Byte)
    ensures And(b, 0x0f) == b % 16
  {
    Pow2At4();
    AndOnes(b, 0x0f, 4, 16);
  }

  lemma SevenBits(b: Byte)
    ensures And(b, 0x7f) == b % 128
  {
    Pow2At7();
    AndOnes(b, 0x7f, 7, 128);
  }

  lemma EightBits(b: Byte)
    ensures And(b, 0xff) == b
  {
    AndByte(b, 0xff);
  }

  /** `bin`, as the generator computes it in signed 32-bit arithmetic. */
  function Bin(mac: Mac): int {
    var offset := And(mac[|mac| - 1], 0x0f);
    Nibble(mac[|mac| - 1]);
    BinOf(mac[offset], mac[offset + 1], mac[offset + 2], mac[offset + 3])
  }

  function BinOf(a: Byte, b: Byte, c: Byte, d: Byte): int {
    Or(Or(Or(Shl(And(a, 0x7f), 24), Shl(And(b, 0xff), 16)), Shl(And(c, 0xff), 8)), And(d, 0xff))
  }

  lemma TwoBytes(a: nat, b: nat)
    requires a < 128 && b < 256
    ensures Or(Shl(a, 24), Shl(b, 16)) == a * 0x100_0000 + b * 0x1_0000
  {
    Pow2At16();
    Pow2At24();
    ShlAt(a, 24, 0x100_0000);
    ShlAt(b, 16, 0x1_0000);
    OrAt(a * 0x100_0000, b * 0x1_0000, a, 24, 0x100_0000);
  }

  lemma ThreeBytes(x: int, n: nat, c: nat)
    requires n < 0x8000 && c < 256 && x == n * 0x1_0000
    ensures Or(x, Shl(c, 8)) == x + c * 0x100
  {
    Pow2At8();
    Pow2At16();
    ShlAt(c, 8, 0x100);
    OrAt(x, c * 0x100, n, 16, 0x1_0000);
  }

  lemma FourBytes(y: int, n: nat, d: nat)
    requires n < 0x80_0000 && d < 256 && y == n * 0x100
    ensures Or(y, d) == y + d
  {
    Pow2At8();
    OrAt(y, d, n, 8, 0x100);
  }

  lemma LowBytes(x: int, n: nat, c: nat, d: nat)
    requires n < 0x8000 && c < 256 && d < 256 && x == n * 0x1_0000
    ensures Or(Or(x, Shl(c, 8)), d) == x + c * 0x100 + d
  {
    ThreeBytes(x, n, c);
    FourBytes(Or(x, Shl(c, 8)), n * 0x100 + c, d);
  }

  /** Four bytes shifted and or-ed together are the number they spell. */
  lemma Assemble(a: nat, b: nat, c: nat, d: nat)
    requires a < 128 && b < 256 && c < 256 && d < 256
    ensures Or(Or(Or(Shl(a, 24), Shl(b, 16)), Shl(c, 8)), d) == a * 0x100_0000 + b * 0x1_0000 + c * 0x100 + d
  {
    TwoBytes(a, b);
    LowBytes(Or(Shl(a, 24), Shl(b, 16)), a * 0x100 + b, c, d);
  }

  lemma BinOfBytes(a: Byte, b: Byte, c: Byte, d: Byte)
    ensures BinOf(a, b, c, d) == BigEndian31(a, b, c, d)
  {
    SevenBits(a);
    EightBits(b);
    EightBits(c);
    EightBits(d);
    Assemble(a % 128, b, c, d);
  }

  /** Every byte read is in range, the signed 32-bit value is not negative, and it is the masked
      big-endian number of the standard. */
  lemma BinIsTruncation(mac: Mac)
    ensures Bin(mac) == Truncate(mac)
    ensures 0 <= Bin(mac) < TWO31
  {
    var o := mac[19] % 16;
    Nibble(mac[19]);
    BinOfBytes(mac[o], mac[o + 1], mac[o + 2], mac[o + 3]);
  }

  // ---------- six digits ----------

  function SixDigits(n: nat): string {
    PadStart(ToDecimal(n), 6)
  }

  lemma SixDigitsRead(n: nat)
    requires n < MILLION
    ensures var s := SixDigits(n); |s| == 6 && AllDigits(s) && ReadDecimal(s) == n
  {
    assert Pow10(3) == 1000;
    assert Pow10(6) == MILLION;
    DecimalReads(n, 6);
    PadReads(ToDecimal(n), 6);
  }

  // ---------- the code of a moment ----------

  datatype TotpError = InvalidCharacter(c: char) | CounterOutOfRange

  const TWO64 := 0x1_0000_0000_0000_0000

  function Counter(atMs: real): int {
    (atMs / 1000.0 / 30.0).Floor
  }

  /** What is hashed: the counter in eight bytes, most significant first. */
  function Message(counter: nat): (msg: seq<Byte>)
    ensures |msg| == 8
  {
    BigEndian(counter, 8)
  }

  /** Eight bytes are enough for every counter, and they spell it. */
  lemma MessageSpells(counter: nat)
    requires counter < TWO64
    ensures Value256(Message(counter)) == counter
  {
    assert Pow2(0) == 1;
    Pow2At32();
    Pow2Sum(32, 32);
    ValueOfBigEndian(counter, 8);
  }

  /** The code for a decoded key and a counter. */
  function CodeFor(key: seq<Byte>, counter: nat, hmac: Hmac): string {
    var mac := hmac(key, Message(counter));
    BinIsTruncation(mac);
    SixDigits(Bin(mac) % MILLION)
  }

  /** The code of the standard: the truncated value modulo a million. */
  function Hotp(key: seq<Byte>, counter: nat, hmac: Hmac): nat {
    Truncate(hmac(key, Message(counter))) % MILLION
  }

  function CodeAt(secret: string, atMs: real, fold: char -> string, hmac: Hmac): Result<string, TotpError> {
    match Decoded(secret, fold)
    case Err(c) => Err(InvalidCharacter(c))
    case Ok(key) =>
      var counter := Counter(atMs);
      if 0 <= counter < TWO64 then Ok(CodeFor(key, counter, hmac)) else Err(CounterOutOfRange)
  }

  /** `totpCode`. */
  method TotpCode(secret: string, atMs: real, fold: char -> string, hmac: Hmac) returns (r: Result<string, TotpError>)
    ensures r == CodeAt(secret, atMs, fold, hmac)
  {
    var key := Base32Decode(secret, fold);
    if key.Err? {
      return Err(InvalidCharacter(key.error));
    }
    var counter := Counter(atMs);
    if counter < 0 || TWO64 <= counter {
      return Err(CounterOutOfRange);
    }
    var msg := Message(counter);
    var mac := hmac(key.value, msg);
    var bin := Bin(mac);
    BinIsTruncation(mac);
    r := Ok(PadStart(ToDecimal(bin % MILLION), 6));
  }

  /** `wrongCode`: the code of five minutes ago. */
  function WrongCodeAt(secret: string, atMs: real, fold: char -> string, hmac: Hmac): Result<string, TotpError> {
    CodeAt(secret, atMs - 300000.0, fold, hmac)
  }

  /** A code is exactly six digits, and they spell the value of the standard. */
  lemma CodeIsHotp(key: seq<Byte>, counter: nat, hmac: Hmac)
    ensures var s := CodeFor(key, counter, hmac);
      |s| == 6 && AllDigits(s) && ReadDecimal(s) == Hotp(key, counter, hmac)
  {
    BinIsTruncation(hmac(key, Message(counter)));
    SixDigitsRead(Hotp(key, counter, hmac));
  }

  /** Why there is no code: the first character outside the alphabet is named, and else the counter is
      out of range; there is one in all other cases. */
  lemma NoCodeExactly(secret: string, atMs: real, fold: char -> string, hmac: Hmac)
    ensures var clean := Clean(secret, fold);
      match CodeAt(secret, atMs, fold, hmac)
      case Ok(_) => (forall i :: 0 <= i < |clean| ==> clean[i] in ALPHABET) && 0 <= Counter(atMs) < TWO64
      case Err(InvalidCharacter(c)) => exists i :: FirstOutside(clean, ALPHABET, i) && clean[i] == c
      case Err(CounterOutOfRange) =>
        (forall i :: 0 <= i < |clean| ==> clean[i] in ALPHABET) && !(0 <= Counter(atMs) < TWO64)
  {
    RefusedExactly(Clean(secret, fold), ALPHABET);
  }

  /** The example of section 5.4 of RFC 4226. */
  lemma StandardExample()
    ensures var mac: Mac := [0x1f, 0x86, 0x98, 0x69, 0x0e, 0x02, 0xca, 0x16, 0x61, 0x85,
                             0x50, 0xef, 0x7f, 0x19, 0xda, 0x8e, 0x94, 0x5b, 0x55, 0x5a];
      Truncate(mac) == 0x50ef7f19 && Truncate(mac) % MILLION == 872921
  {
  }

  /** The code of a whole number of milliseconds and of its second is the same. */
  lemma CounterOfSeconds(ms: nat)
    ensures Counter(ms as real) == ms / 1000 / 30
  {
  }

  /** Codes depend on the time only through its window, for good and bad secrets alike, and the
      wrong code is the code of the counter exactly ten lower. */
  lemma TimeWindow(secret: string, atMs: real, other: real, fold: char -> string, hmac: Hmac)
    ensures (atMs / 30000.0).Floor == (other / 30000.0).Floor ==>
      CodeAt(secret, atMs, fold, hmac) == CodeAt(secret, other, fold, hmac)
    ensures Counter(atMs - 300000.0) == Counter(atMs) - 10
    ensures Decoded(secret, fold).Ok? && 10 <= Counter(atMs) < TWO64 ==>
      WrongCodeAt(secret, atMs, fold, hmac) == Ok(CodeFor(Decoded(secret, fold).value, Counter(atMs) - 10, hmac))
  {
  }

  // ---------- the gateway's side ----------

  /** The truncation of the gateway's `hotp`, in unsigned 32-bit arithmetic. */
  function ServerTruncate(a: Byte, b: Byte, c: Byte, d: Byte): nat {
    BitOr(BitOr(BitOr((a as int) % 128 * 0x100_0000, (b as int) * 0x1_0000), (c as int) * 0x100), d)
  }

  lemma ServerAssembles(a: nat, b: nat, c: nat, d: nat)
    requires a < 128 && b < 256 && c < 256 && d < 256
    ensures BitOr(BitOr(BitOr(a * 0x100_0000, b * 0x1_0000), c * 0x100), d)
      == a * 0x100_0000 + b * 0x1_0000 + c * 0x100 + d
  {
    Pow2At8();
    Pow2At16();
    Pow2At24();
    BitOrAt(a * 0x100_0000, b * 0x1_0000, a, 24, 0x100_0000);
    BitOrAt(a * 0x100_0000 + b * 0x1_0000, c * 0x100, a * 0x100 + b, 16, 0x1_0000);
    BitOrAt(a * 0x100_0000 + b * 0x1_0000 + c * 0x100, d, a * 0x1_0000 + b * 0x100 + c, 8, 0x100);
  }

  function ServerValue(sum: Mac): nat {
    var o := sum[|sum| - 1] % 16;
    ServerTruncate(sum[o], sum[o + 1], sum[o + 2], sum[o + 3])
  }

  lemma ServerTruncates(mac: Mac)
    ensures ServerValue(mac) == Truncate(mac)
  {
    var o := mac[19] % 16;
    ServerAssembles((mac[o] as int) % 128, mac[o + 1], mac[o + 2], mac[o + 3]);
  }

  /** The gateway's `hotp`. */
  function ServerCode(key: seq<Byte>, counter: nat, hmac: Hmac): string {
    SixDigits(ServerValue(hmac(key, Message(counter))) % MILLION)
  }

  /** The signed generator and the unsigned gateway compute the same code. */
  lemma BothCodesAreHotp(key: seq<Byte>, counter: nat, hmac: Hmac)
    ensures ServerCode(key, counter, hmac) == SixDigits(Hotp(key, counter, hmac))
    ensures CodeFor(key, counter, hmac) == SixDigits(Hotp(key, counter, hmac))
  {
    var mac := hmac(key, Message(counter));
    BinIsTruncation(mac);
    ServerTruncates(mac);
  }

  /** The counter `delta` steps from the moment `unix`, in unsigned 64-bit arithmetic. */
  function ServerCounter(unix: int, delta: int): nat {
    (unix % TWO64 / 30 + delta) % TWO64
  }

  lemma ServerStep(unix: nat, delta: int)
    requires unix < TWO64 && -1 <= delta <= 1 && 0 <= unix / 30 + delta
    ensures ServerCounter(unix, delta) == unix / 30 + delta
  {
  }

  /** Around the epoch the counter wraps: the step before the first is the last of all, and moments
      before the epoch count from the end. */
  lemma ServerWraps(unix: int, delta: int)
    requires -TWO64 <= unix < 30
    ensures 0 <= unix ==> ServerCounter(unix, -1) == TWO64 - 1
    ensures unix < 0 ==> ServerCounter(unix, delta) == ((TWO64 + unix) / 30 + delta) % TWO64
  {
    if 0 <= unix {
      assert unix % TWO64 / 30 == 0;
    } else {
      assert unix % TWO64 == TWO64 + unix;
    }
  }

  predicate Matches(key: seq<Byte>, code: string, counter: nat, hmac: Hmac) {
    code == ServerCode(key, counter, hmac)
  }

  /** A code is accepted for the step of the moment and the one on either side. */
  predicate Accepts(key: seq<Byte>, code: string, unix: int, hmac: Hmac) {
    || Matches(key, code, ServerCounter(unix, -1), hmac)
    || Matches(key, code, ServerCounter(unix, 0), hmac)
    || Matches(key, code, ServerCounter(unix, 1), hmac)
  }

  /** What `Verify` is to tell; `decode` is the library's decoder of unpadded base 32. */
  predicate Verified(secret: string, code: string, unix: int, decode: string -> Option<seq<Byte>>, hmac: Hmac) {
    secret != "" && decode(secret).Some? && Accepts(decode(secret).value, code, unix, hmac)
  }

  /** An empty secret and one that does not decode accept no code, and another exactly the codes of the
      three steps of its key. */
  lemma VerifiedExactly(secret: string, code: string, unix: int, decode: string -> Option<seq<Byte>>, hmac: Hmac)
    ensures secret == "" || decode(secret).None? ==> !Verified(secret, code, unix, decode, hmac)
    ensures secret != "" && decode(secret).Some? ==>
      var key := decode(secret).value;
      (Verified(secret, code, unix, decode, hmac) <==>
        || code == SixDigits(Hotp(key, ServerCounter(unix, -1), hmac))
        || code == SixDigits(Hotp(key, ServerCounter(unix, 0), hmac))
        || code == SixDigits(Hotp(key, ServerCounter(unix, 1), hmac)))
  {
    if decode(secret).Some? {
      var key := decode(secret).value;
      BothCodesAreHotp(key, ServerCounter(unix, -1), hmac);
      BothCodesAreHotp(key, ServerCounter(unix, 0), hmac);
      BothCodesAreHotp(key, ServerCounter(unix, 1), hmac);
    }
  }

  /** `Verify`: the early refusals refuse nothing else, and all three steps are tried, whichever
      matches. */
  method Verify(secret: string, code: string, unix: int, decode: string -> Option<seq<Byte>>, hmac: Hmac)
    returns (ok: bool)
    ensures ok <==> Verified(secret, code, unix, decode, hmac)
  {
    if secret == "" {
      return false;
    }
    var key := decode(secret);
    if key.Some? {
      OnlySixDigits(key.value, code, unix, hmac);
    }
    if |code| != 6 {
      return false;
    }
    var i := 0;
    while i < |code|
      invariant 0 <= i <= |code|
    {
      if code[i] < '0' || '9' < code[i] {
        return false;
      }
      i := i + 1;
    }
    if key.None? {
      return false;
    }
    ok := TrySteps(key.value, code, unix, hmac);
  }

  /** The loop over the steps of `Verify`. */
  method TrySteps(key: seq<Byte>, code: string, unix: int, hmac: Hmac) returns (ok: bool)
    ensures ok <==> Accepts(key, code, unix, hmac)
  {
    var matched := 0;
    var delta := -1;
    while delta <= 1
      invariant -1 <= delta <= 2 && (matched == 0 || matched == 1)
      invariant matched == 1 <==>
        || (-1 < delta && Matches(key, code, ServerCounter(unix, -1), hmac))
        || (0 < delta && Matches(key, code, ServerCounter(unix, 0), hmac))
        || (1 < delta && Matches(key, code, ServerCounter(unix, 1), hmac))
    {
      if Matches(key, code, ServerCounter(unix, delta), hmac) {
        matched := 1;
      }
      delta := delta + 1;
    }
    ok := matched == 1;
  }

  lemma OnlySixDigitsMatch(key: seq<Byte>, code: string, counter: nat, hmac: Hmac)
    ensures Matches(key, code, counter, hmac) ==> |code| == 6 && AllDigits(code)
  {
    BothCodesAreHotp(key, counter, hmac);
    SixDigitsRead(Hotp(key, counter, hmac));
  }

  /** The early refusals refuse nothing that would have matched. */
  lemma OnlySixDigits(key: seq<Byte>, code: string, unix: int, hmac: Hmac)
    ensures Accepts(key, code, unix, hmac) ==> |code| == 6 && AllDigits(code)
  {
    OnlySixDigitsMatch(key, code, ServerCounter(unix, -1), hmac);
    OnlySixDigitsMatch(key, code, ServerCounter(unix, 0), hmac);
    OnlySixDigitsMatch(key, code, ServerCounter(unix, 1), hmac);
  }

  /** The code of the encoded key at `ms`, however padded, is the code of its window. */
  lemma CodeOfEncoded(key: seq<Byte>, n: nat, ms: nat, fold: char -> string, hmac: Hmac)
    requires KeepsAlphabet(fold) && ms / 30000 < TWO64
    ensures CodeAt(EncodePadded(key, n), ms as real, fold, hmac) == Ok(CodeFor(key, ms / 30000, hmac))
  {
    RoundTrip(key, n, fold);
    CounterOfSeconds(ms);
    assert ms / 1000 / 30 == ms / 30000;
  }

  lemma OwnCodeMatches(key: seq<Byte>, counter: nat, unix: nat, delta: int, hmac: Hmac)
    requires unix < TWO64 && -1 <= delta <= 1 && counter == unix / 30 + delta
    ensures Accepts(key, CodeFor(key, counter, hmac), unix, hmac)
  {
    ServerStep(unix, delta);
    BothCodesAreHotp(key, counter, hmac);
    assert Matches(key, CodeFor(key, counter, hmac), ServerCounter(unix, delta), hmac);
  }

  /** The helper and the gateway agree: the code generated from the encoded key, padded or not, is
      that of the key at every moment whose step is at most one away. */
  lemma GeneratedCodeIsAccepted(key: seq<Byte>, n: nat, ms: nat, unix: nat, fold: char -> string, hmac: Hmac)
    requires KeepsAlphabet(fold) && ms / 30000 < TWO64 && unix < TWO64
    requires -1 <= ms / 30000 - unix / 30 <= 1
    ensures var code := CodeAt(EncodePadded(key, n), ms as real, fold, hmac);
      code.Ok? && Accepts(key, code.value, unix, hmac)
  {
    CodeOfEncoded(key, n, ms, fold, hmac);
    OwnCodeMatches(key, ms / 30000, unix, ms / 30000 - unix / 30, hmac);
  }

  /** For a secret as the gateway issues it, without padding, `Verify` tells so itself, unless the
      secret is empty. */
  lemma IssuedSecretVerifies(key: seq<Byte>, ms: nat, unix: nat, decode: string -> Option<seq<Byte>>,
                             fold: char -> string, hmac: Hmac)
    requires KeepsAlphabet(fold) && ms / 30000 < TWO64 && unix < TWO64
    requires -1 <= ms / 30000 - unix / 30 <= 1
    requires decode(EncodePadded(key, 0)) == Some(key)
    ensures var secret := EncodePadded(key, 0);
      var code := CodeAt(secret, ms as real, fold, hmac);
      code.Ok? && (Verified(secret, code.value, unix, decode, hmac) <==> key != [])
  {
    GeneratedCodeIsAccepted(key, 0, ms, unix, fold, hmac);
    assert |EncodePadded(key, 0)| == |EncodeDigits(key)|;
  }

  predicate Collide(key: seq<Byte>, counter: nat, other: nat, hmac: Hmac) {
    Hotp(key, counter, hmac) == Hotp(key, other, hmac)
  }

  lemma MatchIsCollision(key: seq<Byte>, counter: nat, other: nat, hmac: Hmac)
    ensures Matches(key, CodeFor(key, counter, hmac), other, hmac) <==> Collide(key, counter, other, hmac)
  {
    BothCodesAreHotp(key, counter, hmac);
    BothCodesAreHotp(key, other, hmac);
    SixDigitsRead(Hotp(key, counter, hmac));
    SixDigitsRead(Hotp(key, other, hmac));
  }

  /** The value of `counter` is that of one of the three counters tried at `unix`. */
  predicate CollidesAround(key: seq<Byte>, counter: nat, unix: int, hmac: Hmac) {
    || Collide(key, counter, ServerCounter(unix, -1), hmac)
    || Collide(key, counter, ServerCounter(unix, 0), hmac)
    || Collide(key, counter, ServerCounter(unix, 1), hmac)
  }

  lemma AcceptedIfCollides(key: seq<Byte>, counter: nat, unix: int, hmac: Hmac)
    ensures Accepts(key, CodeFor(key, counter, hmac), unix, hmac) <==> CollidesAround(key, counter, unix, hmac)
  {
    MatchIsCollision(key, counter, ServerCounter(unix, -1), hmac);
    MatchIsCollision(key, counter, ServerCounter(unix, 0), hmac);
    MatchIsCollision(key, counter, ServerCounter(unix, 1), hmac);
  }

  lemma ServerWindow(unix: nat, c: nat)
    requires 1 <= c == unix / 30 && unix < TWO64
    ensures ServerCounter(unix, -1) == c - 1 && ServerCounter(unix, 0) == c && ServerCounter(unix, 1) == c + 1
  {
    ServerStep(unix, -1);
    ServerStep(unix, 0);
    ServerStep(unix, 1);
  }

  lemma WrongCodeOf(secret: string, ms: nat, c: nat, fold: char -> string, hmac: Hmac)
    requires Decoded(secret, fold).Ok? && c == ms / 30000
    ensures WrongCodeAt(secret, ms as real, fold, hmac) ==
      if 10 <= c < TWO64 + 10 then Ok(CodeFor(Decoded(secret, fold).value, c - 10, hmac)) else Err(CounterOutOfRange)
  {
    CounterOfSeconds(ms);
    assert ms / 1000 / 30 == ms / 30000;
    TimeWindow(secret, ms as real, ms as real, fold, hmac);
  }

  lemma CodeAccepted(code: Result<string, TotpError>, key: seq<Byte>, counter: nat, unix: int, hmac: Hmac)
    ensures code == Ok(CodeFor(key, counter, hmac)) ==>
      (Accepts(key, code.value, unix, hmac) <==> CollidesAround(key, counter, unix, hmac))
  {
    AcceptedIfCollides(key, counter, unix, hmac);
  }

  /** The wrong code is not always wrong: whenever it is verified, the gateway accepts it exactly when
      the value of the counter ten steps back collides with one of the three it tries; in the first
      five minutes there is no such code. */
  lemma WrongCodeAcceptedExactly(secret: string, ms: nat, unix: int, c: nat, fold: char -> string, hmac: Hmac)
    requires Decoded(secret, fold).Ok? && c == ms / 30000
    ensures var key := Decoded(secret, fold).value;
      var code := WrongCodeAt(secret, ms as real, fold, hmac);
      && (code.Ok? <==> 10 <= c < TWO64 + 10)
      && (code.Ok? ==>
            (Accepts(key, code.value, unix, hmac) <==> CollidesAround(key, c - 10, unix, hmac)))
  {
    WrongCodeOf(secret, ms, c, fold, hmac);
    if 10 <= c {
      CodeAccepted(WrongCodeAt(secret, ms as real, fold, hmac), Decoded(secret, fold).value, c - 10, unix, hmac);
    }
  }

  /** In the window it is made in, the three are the counters nine, ten and eleven steps ahead. */
  lemma WrongCodeInItsWindow(secret: string, ms: nat, unix: nat, c: nat, fold: char -> string, hmac: Hmac)
    requires Decoded(secret, fold).Ok? && unix < TWO64
    requires c == ms / 30000 && c == unix / 30 && 10 <= c
    ensures var key := Decoded(secret, fold).value;
      var code := WrongCodeAt(secret, ms as real, fold, hmac);
      && code.Ok?
      && (Accepts(key, code.value, unix, hmac) <==>
            Collide(key, c - 10, c - 1, hmac) || Collide(key, c - 10, c, hmac) || Collide(key, c - 10, c + 1, hmac))
  {
    WrongCodeAcceptedExactly(secret, ms, unix, c, fold, hmac);
    CollidesInWindow(Decoded(secret, fold).value, c, unix, hmac);
  }

  lemma CollidesInWindow(key: seq<Byte>, c: nat, unix: nat, hmac: Hmac)
    requires 10 <= c == unix / 30 && unix < TWO64
    ensures CollidesAround(key, c - 10, unix, hmac) <==>
      Collide(key, c - 10, c - 1, hmac) || Collide(key, c - 10, c, hmac) || Collide(key, c - 10, c + 1, hmac)
  {
    ServerWindow(unix, c);
  }

  /** An HMAC for which it is accepted. */
  lemma WrongCodeMayBeAccepted(secret: string, mac: Mac, ms: nat, unix: int, fold: char -> string)
    requires Decoded(secret, fold).Ok? && 10 <= ms / 30000 < TWO64 + 10
    ensures var code := WrongCodeAt(secret, ms as real, fold, (k, m) => mac);
      code.Ok? && Accepts(Decoded(secret, fold).value, code.value, unix, (k, m) => mac)
  {
    var hmac: Hmac := (k, m) => mac;
    WrongCodeAcceptedExactly(secret, ms, unix, ms / 30000, fold, hmac);
  }
}
