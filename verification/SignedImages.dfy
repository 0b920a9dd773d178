/** An image signed as the standards say, from the key pairs up, is accepted (src/security/authenticode.cpp). */
module SignedImages {
  import opened Common
  import opened Arithmetic
  import opened Octets
  import opened Asn1
  import opened DerWriter
  import opened ObjectIdentifiers
  import opened RsaPkcs1
  import opened RsaSigning
  import opened DigestInfo
  import opened SpcContent
  import opened DigestConstants
  import opened Authenticode
  import Sha = ShaDigest
  import Pe = PeAuthenticodeHash

  /** EMSA-PKCS1-v1_5 does not care how its DigestInfo is cut in two. */
  lemma EmsaOfWhole(prefix: seq<byte>, digest: seq<byte>, k: nat)
    requires k >= |prefix| + |digest| + 11
    ensures k >= |prefix + digest| + 11 && Emsa([], prefix + digest, k) == Emsa(prefix, digest, k)
  {
    var t := prefix + digest;
    assert [] + t == t;
    hide Fill;
  }

  lemma SignWhole(key: RsaPublicKey, d: nat, prefix: seq<byte>, digest: seq<byte>)
    requires Os2ip(key.modulus) > 0 && |key.modulus| >= |prefix| + |digest| + 11
    ensures |key.modulus| >= |prefix + digest| + 11
    ensures Sign(key, d, [], prefix + digest) == Sign(key, d, prefix, digest)
  {
    EmsaOfWhole(prefix, digest, |key.modulus|);
    hide Emsa, Pow, Os2ip, I2osp;
  }

  // ---- Signatures ----

  /** The signature over a digest: its DigestInfo in DER, padded and raised to the private exponent. */
  ghost function SignDigest(key: RsaPublicKey, d: nat, oid: seq<byte>, digest: seq<byte>): seq<byte>
    requires |oid| == 9 && |digest| < 0x40 && Os2ip(key.modulus) > 0 && |key.modulus| >= |digest| + 30
  {
    WriteIs(oid, digest);
    Sign(key, d, [], Write(oid, digest))
  }

  lemma ModulusPositive(key: RsaPublicKey, d: nat)
    requires IsPrivate(key, d)
    ensures Os2ip(key.modulus) > 0
  {
    LeadingByteBound(key.modulus);
    PowPositive(|key.modulus| - 1);
  }

  lemma NineOctets()
    ensures |Sha256Oid()| == 9 && |Sha384Oid()| == 9
  {
    HashOids();
  }

  lemma Sha256SignatureVerifies(key: RsaPublicKey, d: nat, digest: seq<byte>)
    requires IsPrivate(key, d) && |digest| == 32 && |key.modulus| >= 62
    ensures Os2ip(key.modulus) > 0 && |Sha256Oid()| == 9
    ensures ValidSignature(SignDigest(key, d, Sha256Oid(), digest), key, digest, SHA256_DIGEST_INFO_PREFIX)
  {
    var prefix := SHA256_DIGEST_INFO_PREFIX;
    assert |prefix| == 19;
    NineOctets();
    ModulusPositive(key, d);
    PrefixesAreDigestInfo(digest);
    hide Sign, ValidSignature, Write, Sha256Oid, Os2ip, IsPrivate;
    SignedIsValid(key, d, prefix, digest);
    SignWhole(key, d, prefix, digest);
  }

  lemma Sha384SignatureVerifies(key: RsaPublicKey, d: nat, digest: seq<byte>)
    requires IsPrivate(key, d) && |digest| == 48 && |key.modulus| >= 78
    ensures Os2ip(key.modulus) > 0 && |Sha384Oid()| == 9
    ensures ValidSignature(SignDigest(key, d, Sha384Oid(), digest), key, digest, SHA384_DIGEST_INFO_PREFIX)
  {
    var prefix := SHA384_DIGEST_INFO_PREFIX;
    assert |prefix| == 19;
    NineOctets();
    ModulusPositive(key, d);
    PrefixesAreDigestInfo(digest);
    hide Sign, ValidSignature, Write, Sha384Oid, Os2ip, IsPrivate;
    SignedIsValid(key, d, prefix, digest);
    SignWhole(key, d, prefix, digest);
  }

  lemma Sha256Length(d: Digests, m: seq<byte>)
    ensures |Sha256Of(d, m)| == 32 && |Sha384Of(d, m)| == 48
  {
    DigestLengths(d.c256, d.c384, (state, block) => state, m);
  }

  // ---- Certificates ----

  /** The holder of the private exponent signed the certificate's body with one of the two algorithms. */
  ghost predicate Issued(d: Digests, subject: Certificate, issuer: Certificate, private: nat) {
    && issuer.rsaPublicKey.Some? && IsPrivate(issuer.rsaPublicKey.value, private)
    && |issuer.rsaPublicKey.value.modulus| >= 78
    && (IssuedWithSha256(d, subject, issuer.rsaPublicKey.value, private)
        || IssuedWithSha384(d, subject, issuer.rsaPublicKey.value, private))
  }

  ghost predicate IssuedWithSha256(d: Digests, subject: Certificate, key: RsaPublicKey, private: nat)
    requires IsPrivate(key, private) && |key.modulus| >= 78
  {
    ModulusPositive(key, private);
    NineOctets();
    Sha256Length(d, subject.tbsCertificate);
    && subject.signatureAlgorithmOid == Dotted([1, 2, 840, 113549, 1, 1, 11])
    && subject.signatureValue == SignDigest(key, private, Sha256Oid(), Sha256Of(d, subject.tbsCertificate))
  }

  ghost predicate IssuedWithSha384(d: Digests, subject: Certificate, key: RsaPublicKey, private: nat)
    requires IsPrivate(key, private) && |key.modulus| >= 78
  {
    ModulusPositive(key, private);
    NineOctets();
    Sha256Length(d, subject.tbsCertificate);
    && subject.signatureAlgorithmOid == Dotted([1, 2, 840, 113549, 1, 1, 12])
    && subject.signatureValue == SignDigest(key, private, Sha384Oid(), Sha384Of(d, subject.tbsCertificate))
  }

  ghost function IssuedBySome(d: Digests): Vouch {
    (subject, issuer) => exists private: nat :: Issued(d, subject, issuer, private)
  }

  /** What was issued so, verifies. */
  lemma IssuedIsSigned(d: Digests, subject: Certificate, issuer: Certificate, private: nat)
    requires Issued(d, subject, issuer, private)
    ensures SignedBy(d, subject, issuer)
  {
    var key := issuer.rsaPublicKey.value;
    NamesAreStandard();
    Sha256Length(d, subject.tbsCertificate);
    hide Sha256Of, Sha384Of, ValidSignature, SignDigest, Dotted, IsPrivate, Arcs;
    assert SHA256_WITH_RSA_OID != SHA384_WITH_RSA_OID by { assert SHA256_WITH_RSA_OID[20] != SHA384_WITH_RSA_OID[20]; }
    if IssuedWithSha256(d, subject, key, private) {
      Sha256SignatureVerifies(key, private, Sha256Of(d, subject.tbsCertificate));
    } else {
      Sha384SignatureVerifies(key, private, Sha384Of(d, subject.tbsCertificate));
    }
  }

  lemma {:induction false} LinksOfMore(weak: Vouch, strong: Vouch, c: Chain, current: Option<nat>, path: seq<nat>)
    requires forall x, y :: strong(x, y) ==> weak(x, y)
    requires Links(strong, c, current, path)
    ensures Links(weak, c, current, path)
    decreases |path|
  {
    if |path| > 0 { LinksOfMore(weak, strong, c, Some(path[0]), path[1..]); }
  }

  /** A path of at most five intermediates, each certificate issued by the holder of the next key, is trusted. */
  lemma IssuedPathIsTrusted(d: Digests, c: Chain, path: seq<nat>, anchor: nat)
    requires c.Valid() && DistinctNames(c) && |path| <= 5
    requires TrustPath(IssuedBySome(d), c, c.leafAt, path, anchor)
    ensures Walk(Vouches(d), c, c.leafAt, 0) == Trusted
  {
    forall x, y | IssuedBySome(d)(x, y) ensures Vouches(d)(x, y) {
      var private: nat :| Issued(d, x, y, private);
      IssuedIsSigned(d, x, y, private);
    }
    hide Issued, SignedBy;
    LinksOfMore(Vouches(d), IssuedBySome(d), c, c.leafAt, path);
    assert TrustPath(Vouches(d), c, c.leafAt, path, anchor);
    hide TrustPath, Walk, DistinctNames;
    TrustedIsExact(Vouches(d), c);
  }

  // ---- The blob ----

  /** The content names the image's digest behind some first element, and the signer's attributes, written as a SET,
      are signed with the leaf's private exponent. */
  ghost predicate SignsImage(d: Digests, sd: SignedData, hashed: seq<byte>, leaf: nat, private: nat) {
    && |sd.signerInfos| > 0 && leaf < |sd.certificates| && sd.certificates[leaf].rsaPublicKey.Some?
    && SignsContent(d, sd, hashed)
    && SignsAttributes(d, sd.signerInfos[0], sd.certificates[leaf].rsaPublicKey.value, private)
    && FirstSigner(sd, sd.signerInfos[0], Some(leaf))
    && (sd.signerInfos[0].messageDigest.Some? ==>
          sd.signerInfos[0].messageDigest.value == Sha256Of(d, sd.content))
  }

  ghost predicate SignsContent(d: Digests, sd: SignedData, hashed: seq<byte>) {
    NineOctets();
    Sha256Length(d, hashed);
    exists attribute :: IsElement(attribute) && sd.content == attribute + Write(Sha256Oid(), Sha256Of(d, hashed))
  }

  ghost predicate SignsAttributes(d: Digests, signer: SignerInfo, key: RsaPublicKey, private: nat) {
    && IsPrivate(key, private) && |key.modulus| >= 62 && |signer.signedAttrsContent| < TWO_64
    && signer.digestAlgorithmOid == Dotted([2, 16, 840, 1, 101, 3, 4, 2, 1])
    && var attributes := Der(Universal, true, TAG_SET, signer.signedAttrsContent);
       ModulusPositive(key, private);
       NineOctets();
       Sha256Length(d, attributes);
       signer.signature == SignDigest(key, private, Sha256Oid(), Sha256Of(d, attributes))
  }

  /** The SET writer writes what section 8.1 of X.690 has. */
  lemma SetIsDer(content: seq<byte>)
    requires |content| < TWO_64
    ensures DerSet(content) == Der(Universal, true, TAG_SET, content)
  {
    assert Identifier(Universal, true, TAG_SET) == [0x31];
  }

  lemma ContentClaims(d: Digests, sd: SignedData, hashed: seq<byte>)
    requires SignsContent(d, sd, hashed)
    ensures ClaimedPeHash(sd.content) == Some(Sha256Of(d, hashed))
  {
    NineOctets();
    Sha256Length(d, hashed);
    NamesAreStandard();
    hide Sha256Of, Sha256Oid, Arcs, Write, ClaimedPeHash, Dotted, IsElement;
    var attribute :| IsElement(attribute) && sd.content == attribute + Write(Sha256Oid(), Sha256Of(d, hashed));
    SpcReadsBack(attribute, Sha256Oid(), Sha256Of(d, hashed));
  }

  lemma SignedAttributesVerify(d: Digests, signer: SignerInfo, key: RsaPublicKey, private: nat)
    requires SignsAttributes(d, signer, key, private)
    ensures signer.digestAlgorithmOid == SHA256_DIGEST_OID && |signer.signedAttrsContent| < TWO_64
    ensures ValidSignature(signer.signature, key, Sha256Of(d, DerSet(signer.signedAttrsContent)),
                           SHA256_DIGEST_INFO_PREFIX)
  {
    NamesAreStandard();
    SetIsDer(signer.signedAttrsContent);
    var attributes := Der(Universal, true, TAG_SET, signer.signedAttrsContent);
    Sha256Length(d, attributes);
    hide Sha256Of, ValidSignature, SignDigest, Dotted, IsPrivate, Arcs, Der, DerSet, Sha256Oid, Sha384Oid;
    Sha256SignatureVerifies(key, private, Sha256Of(d, attributes));
  }

  lemma SignedCovers(d: Digests, sd: SignedData, f: seq<byte>, leaf: nat, private: nat)
    requires Pe.HashedBytes(f).Some? && SignsImage(d, sd, Pe.HashedBytes(f).value, leaf, private)
    ensures HasSigner(Some(sd), Some(leaf)) && BlobCovers(d, sd, f, leaf)
  {
    hide Pe.HashedBytes, SignsAttributes, SignsContent, ClaimedPeHash, ValidSignature, Sha256Of, DerSet, FirstSigner;
    ContentClaims(d, sd, Pe.HashedBytes(f).value);
    SignedAttributesVerify(d, sd.signerInfos[0], sd.certificates[leaf].rsaPublicKey.value, private);
  }

  /** From the key pairs up: an unsigned image, a blob that signs its digest, a path of issued certificates to an anchor
      and the blob appended to the image. The blob comes out of the signed image again, it covers the image, and the
      walk from its signer ends in TRUSTED. */
  lemma SignedImageIsTrusted(d: Digests, sd: SignedData, f: seq<byte>, g: seq<byte>, table: seq<byte>, blob: seq<byte>,
                             leaf: nat, private: nat, anchors: seq<Certificate>, path: seq<nat>, anchor: nat)
    requires Pe.HashedBytes(f).Some? && SignsImage(d, sd, Pe.HashedBytes(f).value, leaf, private)
    requires Pe.FindLayout(f).Some? && Pe.FindLayout(f).value.certSize == 0
    requires Pe.FieldsClear(f, Pe.FindLayout(f).value) && Pe.SignedFrom(f, g, Pe.FindLayout(f).value, table)
    requires Pe.IsWinCertificate(table, blob) && |path| <= 5
    requires var c := Chain(sd.certificates[leaf], Some(leaf), sd.certificates, anchors);
             DistinctNames(c) && TrustPath(IssuedBySome(d), c, Some(leaf), path, anchor)
    ensures Pe.ExtractAuthenticodeSignature(g) == Some(blob)
    ensures HasSigner(Some(sd), Some(leaf)) && BlobCovers(d, sd, g, leaf)
    ensures Walk(Vouches(d), Chain(sd.certificates[leaf], Some(leaf), sd.certificates, anchors), Some(leaf), 0)
            == Trusted
  {
    hide Pe.HashedBytes, Pe.ExtractAuthenticodeSignature, Pe.FindLayout, Pe.FieldsClear, Pe.SignedFrom, TrustPath, Walk,
         DistinctNames, HasSigner, BlobCovers;
    Pe.SignatureRoundTrip(f, g, table, blob);
    SignedCovers(d, sd, f, leaf, private);
    CoverageSurvivesSigning(d, sd, f, g, table, leaf);
    IssuedPathIsTrusted(d, Chain(sd.certificates[leaf], Some(leaf), sd.certificates, anchors), path, anchor);
  }
}
