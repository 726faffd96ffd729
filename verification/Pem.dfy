/** Option, as every other module of this project uses it. */
module Wrappers {
  datatype Option<+T> = None | Some(value: T)
}

/** The text of the certificate files: PEM armour, certificates and private keys
    (server-agent/internal/certinstall/install.go).

    A text is kept as a sequence of items: an armoured block, together with the way it
    was laid out (line width, line ends), or one character outside any block.  X.509 and
    key parsing are library code; what they find in a block is part of the block. */
module Pem {
  import opened Wrappers

  /** A public key.  `Foreign` is a key of a type without an `Equal` method. */
  datatype PublicKey = Comparable(id: nat) | Foreign(id: nat)

  datatype Certificate = Certificate(serial: nat, pub: PublicKey, notAfter: int)

  datatype Signer = Signer(pub: PublicKey)

  /** What the bytes of a block parse as: a certificate, a private key in any of the
      three encodings, or neither. */
  datatype Payload = CertificateDER(cert: Certificate) | KeyDER(signer: Signer) | OtherDER(id: nat)

  datatype Block = Block(kind: string, payload: Payload)

  datatype Item = Armored(block: Block, layout: nat) | Noise(ch: char)

  type Text = seq<Item>

  /** SHA-256 over the DER form, kept symbolic and therefore injective. */
  datatype Fingerprint = Absent | Sha256(cert: Certificate)

  /** `pem.Decode`: the first block and what follows it. */
  function Decode(text: Text): (r: Option<(Block, Text)>)
    ensures r.Some? ==> |r.value.1| < |text|
    ensures r.Some? ==> Blocks(text) == [r.value.0] + Blocks(r.value.1)
    ensures r.None? <==> Blocks(text) == []
  {
    if text == [] then None
    else match text[0]
      case Armored(block, _) => Some((block, text[1..]))
      case Noise(_) => Decode(text[1..])
  }

  /** All blocks of a text, in order. */
  function Blocks(text: Text): seq<Block> {
    if text == [] then []
    else match text[0]
      case Armored(block, _) => [block] + Blocks(text[1..])
      case Noise(_) => Blocks(text[1..])
  }

  /** `pem.Encode`: the canonical layout, without anything around it. */
  function Encode(blocks: seq<Block>): (text: Text)
    ensures |text| == |blocks|
  {
    if blocks == [] then [] else [Armored(blocks[0], 0)] + Encode(blocks[1..])
  }

  lemma {:induction false} BlocksOfEncode(blocks: seq<Block>)
    ensures Blocks(Encode(blocks)) == blocks
  {
    if blocks == [] {
    } else {
      BlocksOfEncode(blocks[1..]);
      assert Encode(blocks)[1..] == Encode(blocks[1..]);
    }
  }

  lemma {:induction false} EncodeAppend(blocks: seq<Block>, last: Block)
    ensures Encode(blocks + [last]) == Encode(blocks) + Encode([last])
  {
    if blocks == [] {
      assert [] + [last] == [last];
    } else {
      EncodeAppend(blocks[1..], last);
      assert (blocks + [last])[1..] == blocks[1..] + [last];
    }
  }

  function ParseLeaf(text: Text): Option<Certificate> {
    match Decode(text)
    case None => None
    case Some((block, _)) =>
      if block.payload.CertificateDER? then Some(block.payload.cert) else None
  }

  function ParseKey(text: Text): Option<Signer> {
    match Decode(text)
    case None => None
    case Some((block, _)) =>
      if block.payload.KeyDER? then Some(block.payload.signer) else None
  }

  /** The pairing check of a leaf and a private key. */
  predicate PublicKeysMatch(leaf: Option<Certificate>, signer: Option<Signer>) {
    leaf.Some? && signer.Some? && leaf.value.pub.Comparable? && leaf.value.pub == signer.value.pub
  }

  /** Whether the first certificate of `chain` and the first key of `key` belong together. */
  predicate Pairs(chain: Text, key: Text) {
    PublicKeysMatch(ParseLeaf(chain), ParseKey(key))
  }

  function LeafFingerprint(chain: Text): Fingerprint {
    match ParseLeaf(chain)
    case None => Absent
    case Some(cert) => Sha256(cert)
  }

  /** The standalone leaf of a chain, re-encoded; empty when there is no block. */
  function LeafText(chain: Text): Text {
    var blocks := Blocks(chain);
    if blocks == [] then [] else Encode(blocks[..1])
  }

  /** The issuers of a chain, re-encoded; empty when the chain is a single block. */
  function RestText(chain: Text): Text {
    var blocks := Blocks(chain);
    if blocks == [] then [] else Encode(blocks[1..])
  }

  /** The split loses and reorders nothing, and the standalone leaf reads back as the same
      certificate, so with the same fingerprint and the same pairing, as the chain. */
  lemma SplitKeepsBlocks(chain: Text, key: Text)
    ensures Blocks(LeafText(chain)) + Blocks(RestText(chain)) == Blocks(chain)
    ensures LeafFingerprint(LeafText(chain)) == LeafFingerprint(chain)
    ensures Pairs(LeafText(chain), key) <==> Pairs(chain, key)
    ensures LeafText(chain) == [] <==> Blocks(chain) == []
    ensures RestText(chain) == [] <==> |Blocks(chain)| <= 1
    ensures Blocks(chain) != [] ==> Blocks(LeafText(chain)) == Blocks(chain)[..1]
  {
    var blocks := Blocks(chain);
    if blocks != [] {
      BlocksOfEncode(blocks[..1]);
      BlocksOfEncode(blocks[1..]);
      FirstBlockDecides(LeafText(chain));
      FirstBlockDecides(chain);
    }
  }

  lemma FirstBlockDecides(text: Text)
    ensures Blocks(text) != [] ==> Decode(text).Some? && Decode(text).value.0 == Blocks(text)[0]
  {
  }

  /** Chain and key pair exactly if the first block of the one is a certificate and the first of the
      other a private key, for the same public key of a type that can be compared. */
  lemma PairsExactly(chain: Text, key: Text)
    ensures Pairs(chain, key) <==>
      && Blocks(chain) != [] && Blocks(chain)[0].payload.CertificateDER?
      && Blocks(key) != [] && Blocks(key)[0].payload.KeyDER?
      && Blocks(chain)[0].payload.cert.pub.Comparable?
      && Blocks(chain)[0].payload.cert.pub == Blocks(key)[0].payload.signer.pub
  {
    FirstBlockDecides(chain);
    FirstBlockDecides(key);
  }

  /** `splitChain`: one scan over the shrinking remainder. */
  method SplitChain(fullchain: Text) returns (leaf: Text, issuers: Text)
    ensures leaf == LeafText(fullchain) && issuers == RestText(fullchain)
  {
    var first := Decode(fullchain);
    if first.None? {
      return [], [];
    }
    var rest := first.value.1;
    leaf := Encode([first.value.0]);
    issuers := [];
    ghost var scanned: seq<Block> := [];
    while true
      invariant Blocks(fullchain) == [first.value.0] + scanned + Blocks(rest)
      invariant issuers == Encode(scanned)
      decreases |rest|
    {
      var next := Decode(rest);
      if next.None? {
        break;
      }
      EncodeAppend(scanned, next.value.0);
      issuers := issuers + Encode([next.value.0]);
      scanned := scanned + [next.value.0];
      rest := next.value.1;
    }
    assert Blocks(fullchain)[..1] == [first.value.0];
    assert Blocks(fullchain)[1..] == scanned;
  }

  /** The fingerprints of the blocks that are certificates, in order. */
  function CertificateFingerprints(blocks: seq<Block>): seq<Fingerprint> {
    if blocks == [] then []
    else
      var init := CertificateFingerprints(blocks[..|blocks| - 1]);
      var last := blocks[|blocks| - 1].payload;
      if last.CertificateDER? then init + [Sha256(last.cert)] else init
  }

  /** A certificate is reported exactly when it is a block; nothing else is reported. */
  lemma {:induction false} ReportedIffPresent(blocks: seq<Block>, cert: Certificate)
    ensures Sha256(cert) in CertificateFingerprints(blocks) <==>
      exists i :: 0 <= i < |blocks| && blocks[i].payload == CertificateDER(cert)
    ensures Absent !in CertificateFingerprints(blocks)
  {
    if blocks == [] {
    } else {
      var n := |blocks| - 1;
      ReportedIffPresent(blocks[..n], cert);
      if blocks[n].payload == CertificateDER(cert) {
        assert exists i :: 0 <= i < |blocks| && blocks[i].payload == CertificateDER(cert);
      } else {
        assert forall i :: 0 <= i < n ==> blocks[..n][i] == blocks[i];
      }
    }
  }

  /** They come in the order of the blocks: those of two texts are those of the one and then those of
      the other, and a single block gives its own if it is a certificate. */
  lemma {:induction false} ReportedInOrder(a: seq<Block>, b: seq<Block>)
    ensures CertificateFingerprints(a + b) == CertificateFingerprints(a) + CertificateFingerprints(b)
    ensures |b| == 1 ==>
      CertificateFingerprints(b) == if b[0].payload.CertificateDER? then [Sha256(b[0].payload.cert)] else []
  {
    if b == [] {
      assert a + b == a;
    } else {
      var n := |b| - 1;
      assert (a + b)[..|a| + n] == a + b[..n];
      ReportedInOrder(a, b[..n]);
    }
  }

  /** `readCAFingerprints` over the content of ca.pem (`None`: no readable file). */
  method ReadCAFingerprints(raw: Option<Text>) returns (out: seq<Fingerprint>)
    ensures raw.None? ==> out == []
    ensures raw.Some? ==> out == CertificateFingerprints(Blocks(raw.value))
  {
    out := [];
    if raw.None? {
      return;
    }
    var rest := raw.value;
    ghost var scanned: seq<Block> := [];
    while true
      invariant Blocks(raw.value) == scanned + Blocks(rest)
      invariant out == CertificateFingerprints(scanned)
      decreases |rest|
    {
      var next := Decode(rest);
      if next.None? {
        assert Blocks(raw.value) == scanned;
        break;
      }
      ghost var before := scanned;
      scanned := scanned + [next.value.0];
      assert scanned[..|scanned| - 1] == before;
      rest := next.value.1;
      if !next.value.0.payload.CertificateDER? {
        continue;
      }
      out := out + [Sha256(next.value.0.payload.cert)];
    }
  }
}
