/** The certificate chain walk and the order of checks of src/security/authenticode.cpp. Parsing of the
    CMS blob is not modelled: its result comes in as a record. */
module Authenticode {
  import opened Common
  import opened RsaPkcs1
  import opened DigestInfo
  import opened SpcContent
  import Sha = ShaDigest
  import Pe = PeAuthenticodeHash
  import Asn1

  datatype Certificate = Certificate(
    subjectDer: seq<byte>,
    issuerDer: seq<byte>,
    serialNumber: seq<byte>,
    rsaPublicKey: Option<RsaPublicKey>,
    signatureAlgorithmOid: string,
    signatureValue: seq<byte>,
    tbsCertificate: seq<byte>)

  datatype Verdict = Trusted | ValidUntrustedRoot | HashMismatch | SignatureInvalid | ChainInvalid | Malformed

  const MAX_CHAIN_DEPTH: nat := 6

  /** The compression functions of the two digests. */
  datatype Digests = Digests(c256: Sha.Compression, c384: Sha.Compression)

  ghost function Sha256Of(d: Digests, m: seq<byte>): seq<byte> {
    Sha.DigestOf(Sha.Sha256(d.c256), m)
  }

  ghost function Sha384Of(d: Digests, m: seq<byte>): seq<byte> {
    Sha.DigestOf(Sha.Sha384(d.c384), m)
  }

  /** The subject's own signature verifies under the issuer's key. */
  ghost predicate SignedBy(d: Digests, subject: Certificate, issuer: Certificate) {
    issuer.rsaPublicKey.Some? &&
    if subject.signatureAlgorithmOid == SHA256_WITH_RSA_OID then
      ValidSignature(subject.signatureValue, issuer.rsaPublicKey.value,
                     Sha256Of(d, subject.tbsCertificate), SHA256_DIGEST_INFO_PREFIX)
    else if subject.signatureAlgorithmOid == SHA384_WITH_RSA_OID then
      ValidSignature(subject.signatureValue, issuer.rsaPublicKey.value,
                     Sha384Of(d, subject.tbsCertificate), SHA384_DIGEST_INFO_PREFIX)
    else false
  }

  method VerifyCertSignedBy(d: Digests, subject: Certificate, issuer: Certificate) returns (ok: bool)
    ensures ok <==> SignedBy(d, subject, issuer)
  {
    hide ValidSignature, Sha.DigestOf;
    if issuer.rsaPublicKey.None? { return false; }
    if subject.signatureAlgorithmOid == SHA256_WITH_RSA_OID {
      var digest := Sha.Hash(Sha.Sha256(d.c256), subject.tbsCertificate);
      ok := VerifyPkcs1v15Sha256(subject.signatureValue, issuer.rsaPublicKey.value, digest);
    } else if subject.signatureAlgorithmOid == SHA384_WITH_RSA_OID {
      var digest := Sha.Hash(Sha.Sha384(d.c384), subject.tbsCertificate);
      ok := VerifyPkcs1v15Sha384(subject.signatureValue, issuer.rsaPublicKey.value, digest);
    } else {
      ok := false;
    }
  }

  // ---- The walk ----

  /** A chain problem: where the walk starts, what it may pass through, where it may end. The leaf may
      itself be one of the issuers, as it is when it comes from the same certificate set; `leafAt` then
      names it, since the code compares addresses. */
  datatype Chain = Chain(leaf: Certificate, leafAt: Option<nat>, issuers: seq<Certificate>, anchors: seq<Certificate>) {
    ghost predicate Valid() {
      leafAt.Some? ==> leafAt.value < |issuers| && issuers[leafAt.value] == leaf
    }

    /** The certificate under inspection: an issuer, or the leaf. */
    function At(current: Option<nat>): Certificate {
      if current.Some? && current.value < |issuers| then issuers[current.value] else leaf
    }
  }

  /** Index of the first certificate with this subject from i on, other than `except`. */
  function FindSubject(certs: seq<Certificate>, subject: seq<byte>, except: Option<nat>, i: nat): (r: Option<nat>)
    requires i <= |certs|
    ensures r.Some? ==> i <= r.value < |certs| && certs[r.value].subjectDer == subject && Some(r.value) != except
    ensures r.None? ==> forall k :: i <= k < |certs| && Some(k) != except ==> certs[k].subjectDer != subject
    decreases |certs| - i
  {
    if i == |certs| then None
    else if Some(i) != except && certs[i].subjectDer == subject then Some(i)
    else FindSubject(certs, subject, except, i + 1)
  }

  /** Whether the first certificate's signature verifies under the second's key. The walk is proved for
      any such relation; `Vouches` is the real one. */
  type Vouch = (Certificate, Certificate) -> bool

  ghost function Vouches(d: Digests): Vouch {
    (subject, issuer) => SignedBy(d, subject, issuer)
  }

  ghost function Walk(vouches: Vouch, c: Chain, current: Option<nat>, depth: nat): (v: Verdict)
    requires depth <= MAX_CHAIN_DEPTH
    ensures v in {Trusted, ValidUntrustedRoot, ChainInvalid}
    decreases MAX_CHAIN_DEPTH - depth
  {
    if depth == MAX_CHAIN_DEPTH then ValidUntrustedRoot else
    var cert := c.At(current);
    var anchor := FindSubject(c.anchors, cert.issuerDer, None, 0);
    if anchor.Some? then if vouches(cert, c.anchors[anchor.value]) then Trusted else ChainInvalid
    else
      var issuer := FindSubject(c.issuers, cert.issuerDer, current, 0);
      if issuer.None? then ValidUntrustedRoot
      else if !vouches(cert, c.issuers[issuer.value]) then ChainInvalid
      else Walk(vouches, c, issuer, depth + 1)
  }

  method FindTrustAnchorBySubject(anchors: seq<Certificate>, subject: seq<byte>) returns (r: Option<nat>)
    ensures r == FindSubject(anchors, subject, None, 0)
  {
    for i := 0 to |anchors|
      invariant FindSubject(anchors, subject, None, 0) == FindSubject(anchors, subject, None, i)
    {
      if anchors[i].subjectDer == subject { return Some(i); }
    }
    return None;
  }

  method VerifyCertificateChain(d: Digests, c: Chain) returns (v: Verdict)
    requires c.Valid()
    ensures v == Walk(Vouches(d), c, c.leafAt, 0)
  {
    hide SignedBy;
    var current: Option<nat> := c.leafAt;
    for depth := 0 to MAX_CHAIN_DEPTH
      invariant Walk(Vouches(d), c, current, depth) == Walk(Vouches(d), c, c.leafAt, 0)
      invariant current.Some? ==> current.value < |c.issuers|
    {
      var cert := c.At(current);
      var anchor := FindTrustAnchorBySubject(c.anchors, cert.issuerDer);
      if anchor.Some? {
        var ok := VerifyCertSignedBy(d, cert, c.anchors[anchor.value]);
        return if ok then Trusted else ChainInvalid;
      }
      var issuer: Option<nat> := None;
      for i := 0 to |c.issuers|
        invariant issuer.None?
        invariant FindSubject(c.issuers, cert.issuerDer, current, 0)
               == FindSubject(c.issuers, cert.issuerDer, current, i)
      {
        if current == Some(i) { continue; }
        if c.issuers[i].subjectDer == cert.issuerDer { issuer := Some(i); break; }
      }
      if issuer.None? { return ValidUntrustedRoot; }
      var ok := VerifyCertSignedBy(d, cert, c.issuers[issuer.value]);
      if !ok { return ChainInvalid; }
      current := issuer;
    }
    return ValidUntrustedRoot;
  }

  // ---- What the verdicts mean ----

  /** Issuer names match from `current` through the issuers `path`, and each signature verifies under the
      next certificate's key. */
  ghost predicate Links(vouches: Vouch, c: Chain, current: Option<nat>, path: seq<nat>)
    decreases |path|
  {
    |path| > 0 ==>
      && path[0] < |c.issuers|
      && c.issuers[path[0]].subjectDer == c.At(current).issuerDer
      && vouches(c.At(current), c.issuers[path[0]])
      && Links(vouches, c, Some(path[0]), path[1..])
  }

  ghost function EndOf(current: Option<nat>, path: seq<nat>): Option<nat> {
    if |path| == 0 then current else Some(path[|path| - 1])
  }

  /** A verified path from `current` over `path` to an anchor. */
  ghost predicate TrustPath(vouches: Vouch, c: Chain, current: Option<nat>, path: seq<nat>, anchor: nat) {
    && Links(vouches, c, current, path)
    && anchor < |c.anchors|
    && c.anchors[anchor].subjectDer == c.At(EndOf(current, path)).issuerDer
    && vouches(c.At(EndOf(current, path)), c.anchors[anchor])
  }

  /** The issuers that a walk from `current` passes through, with what stopped it. */
  lemma {:induction false} WalkMeaning(vouches: Vouch, c: Chain, current: Option<nat>, depth: nat)
    returns (path: seq<nat>)
    requires depth <= MAX_CHAIN_DEPTH
    ensures |path| <= MAX_CHAIN_DEPTH - depth && Links(vouches, c, current, path)
    ensures var last := c.At(EndOf(current, path));
            match Walk(vouches, c, current, depth)
            case Trusted =>
              |path| < MAX_CHAIN_DEPTH - depth && exists a :: TrustPath(vouches, c, current, path, a)
            case ChainInvalid =>
              || (exists a :: 0 <= a < |c.anchors| && c.anchors[a].subjectDer == last.issuerDer
                              && !vouches(last, c.anchors[a]))
              || (exists i :: 0 <= i < |c.issuers| && c.issuers[i].subjectDer == last.issuerDer
                              && !vouches(last, c.issuers[i]))
            case ValidUntrustedRoot =>
              || |path| == MAX_CHAIN_DEPTH - depth
              || ((forall a :: 0 <= a < |c.anchors| ==> c.anchors[a].subjectDer != last.issuerDer)
                  && (forall i :: 0 <= i < |c.issuers| && Some(i) != EndOf(current, path) ==>
                        c.issuers[i].subjectDer != last.issuerDer))
            case _ => false
    decreases MAX_CHAIN_DEPTH - depth
  {
    path := [];
    if depth < MAX_CHAIN_DEPTH {
      var cert := c.At(current);
      var anchor := FindSubject(c.anchors, cert.issuerDer, None, 0);
      var issuer := FindSubject(c.issuers, cert.issuerDer, current, 0);
      if anchor.Some? {
        assert vouches(cert, c.anchors[anchor.value]) ==> TrustPath(vouches, c, current, [], anchor.value);
      } else if issuer.Some? && vouches(cert, c.issuers[issuer.value]) {
        var rest := WalkMeaning(vouches, c, issuer, depth + 1);
        path := [issuer.value] + rest;
        assert path[1..] == rest && EndOf(current, path) == EndOf(issuer, rest);
        if Walk(vouches, c, current, depth) == Trusted {
          var a :| TrustPath(vouches, c, issuer, rest, a);
          assert TrustPath(vouches, c, current, path, a);
        }
      }
    }
  }

  /** TRUSTED is sound, whatever the certificates: there is a verified path of at most five intermediates
      from the leaf to an anchor. The recursion behind the verdict ends even on cyclic issuer data. */
  lemma TrustedIsSound(vouches: Vouch, c: Chain)
    requires Walk(vouches, c, c.leafAt, 0) == Trusted
    ensures exists path, a :: |path| <= 5 && TrustPath(vouches, c, c.leafAt, path, a)
  {
    var path := WalkMeaning(vouches, c, c.leafAt, 0);
    var a :| TrustPath(vouches, c, c.leafAt, path, a);
  }

  /** At every step the first anchor with the issuer's name decides alone; without one, the first other certificate
      with that name does, and the walk goes on from it when the signature verifies. */
  lemma FirstNameDecides(vouches: Vouch, c: Chain, current: Option<nat>, depth: nat, k: nat)
    requires depth < 6 && k < |c.anchors| + |c.issuers|
    requires forall a :: 0 <= a < |c.anchors| && a < k ==> c.anchors[a].subjectDer != c.At(current).issuerDer
    requires forall i :: 0 <= i < |c.issuers| && |c.anchors| + i < k && Some(i) != current ==>
               c.issuers[i].subjectDer != c.At(current).issuerDer
    requires k >= |c.anchors| ==> Some(k - |c.anchors|) != current
    requires var named := if k < |c.anchors| then c.anchors[k] else c.issuers[k - |c.anchors|];
             named.subjectDer == c.At(current).issuerDer
    ensures Walk(vouches, c, current, depth) ==
            if k < |c.anchors| then (if vouches(c.At(current), c.anchors[k]) then Trusted else ChainInvalid)
            else if !vouches(c.At(current), c.issuers[k - |c.anchors|]) then ChainInvalid
            else Walk(vouches, c, Some(k - |c.anchors|), depth + 1)
  {
    var name := c.At(current).issuerDer;
    hide FindSubject;
    if k < |c.anchors| {
      FoundFirst(c.anchors, name, None, 0, k);
    } else {
      FoundFirst(c.issuers, name, current, 0, k - |c.anchors|);
    }
  }

  lemma {:induction false} FoundFirst(certs: seq<Certificate>, subject: seq<byte>, except: Option<nat>, i: nat, k: nat)
    requires i <= k < |certs| && certs[k].subjectDer == subject && Some(k) != except
    requires forall j :: i <= j < k && Some(j) != except ==> certs[j].subjectDer != subject
    ensures FindSubject(certs, subject, except, i) == Some(k)
    decreases k - i
  {
    if i < k { FoundFirst(certs, subject, except, i + 1, k); }
  }

  /** Names identify certificates. */
  ghost predicate DistinctNames(c: Chain) {
    && (forall i, j :: 0 <= i < j < |c.issuers| ==> c.issuers[i].subjectDer != c.issuers[j].subjectDer)
    && (forall i, j :: 0 <= i < j < |c.anchors| ==> c.anchors[i].subjectDer != c.anchors[j].subjectDer)
    && (forall i, j :: 0 <= i < |c.issuers| && 0 <= j < |c.anchors| ==>
          c.issuers[i].subjectDer != c.anchors[j].subjectDer)
  }

  /** A self-issued intermediate leads nowhere but to itself. */
  lemma {:induction false} SelfIssuedIsStuck(vouches: Vouch, c: Chain, k: nat, path: seq<nat>, anchor: nat)
    requires DistinctNames(c) && k < |c.issuers| && c.issuers[k].subjectDer == c.issuers[k].issuerDer
    requires Links(vouches, c, Some(k), path)
    ensures !TrustPath(vouches, c, Some(k), path, anchor)
  {
    if |path| > 0 {
      assert path[0] == k;
      SelfIssuedIsStuck(vouches, c, k, path[1..], anchor);
      assert EndOf(Some(k), path) == EndOf(Some(k), path[1..]);
    }
  }

  lemma FoundAt(certs: seq<Certificate>, subject: seq<byte>, except: Option<nat>, k: nat)
    requires k < |certs| && certs[k].subjectDer == subject && Some(k) != except
    requires forall i, j :: 0 <= i < j < |certs| ==> certs[i].subjectDer != certs[j].subjectDer
    ensures FindSubject(certs, subject, except, 0) == Some(k)
  {
    var r := FindSubject(certs, subject, except, 0);
    assert r.Some? && (r.value < k || k < r.value || r.value == k);
  }

  lemma {:induction false} PathIsWalked(vouches: Vouch, c: Chain, current: Option<nat>, path: seq<nat>, anchor: nat,
        depth: nat)
    requires DistinctNames(c) && (current.Some? ==> current.value < |c.issuers|)
    requires TrustPath(vouches, c, current, path, anchor) && depth + |path| < MAX_CHAIN_DEPTH
    ensures Walk(vouches, c, current, depth) == Trusted
    decreases |path|
  {
    var cert := c.At(current);
    if |path| > 0 {
      var next := path[0];
      if current == Some(next) { SelfIssuedIsStuck(vouches, c, next, path, anchor); }
      assert EndOf(current, path) == EndOf(Some(next), path[1..]);
      assert TrustPath(vouches, c, Some(next), path[1..], anchor) && vouches(cert, c.issuers[next]);
      assert FindSubject(c.anchors, cert.issuerDer, None, 0).None?;
      FoundAt(c.issuers, cert.issuerDer, current, next);
      hide TrustPath, Links, EndOf, DistinctNames, FindSubject;
      PathIsWalked(vouches, c, Some(next), path[1..], anchor, depth + 1);
    } else {
      FoundAt(c.anchors, cert.issuerDer, None, anchor);
    }
  }

  /** With distinct names, TRUSTED holds exactly when such a path exists. */
  lemma TrustedIsExact(vouches: Vouch, c: Chain)
    requires c.Valid() && DistinctNames(c)
    ensures Walk(vouches, c, c.leafAt, 0) == Trusted
            <==> exists path, a :: |path| <= 5 && TrustPath(vouches, c, c.leafAt, path, a)
  {
    hide Walk, TrustPath;
    if Walk(vouches, c, c.leafAt, 0) == Trusted { TrustedIsSound(vouches, c); }
    forall path, a | |path| <= 5 && TrustPath(vouches, c, c.leafAt, path, a)
      ensures Walk(vouches, c, c.leafAt, 0) == Trusted
    {
      PathIsWalked(vouches, c, c.leafAt, path, a, 0);
    }
  }

  /** The steps a walk takes: no anchor has the issuer's name, and the first issuer that has it vouches. */
  ghost predicate Walks(vouches: Vouch, c: Chain, current: Option<nat>, path: seq<nat>)
    decreases |path|
  {
    |path| > 0 ==>
      && FindSubject(c.anchors, c.At(current).issuerDer, None, 0) == None
      && FindSubject(c.issuers, c.At(current).issuerDer, current, 0) == Some(path[0])
      && vouches(c.At(current), c.issuers[path[0]])
      && Walks(vouches, c, Some(path[0]), path[1..])
  }

  /** The walk gives up after six such steps with VALID_UNTRUSTED_ROOT, not with the CHAIN_INVALID its header
      comment announces for cyclic sets. */
  lemma {:induction false} LongWalkIsUntrustedRoot(vouches: Vouch, c: Chain, current: Option<nat>, path: seq<nat>,
                                                   depth: nat)
    requires Walks(vouches, c, current, path) && depth + |path| == MAX_CHAIN_DEPTH
    ensures Walk(vouches, c, current, depth) == ValidUntrustedRoot
    decreases |path|
  {
    if |path| > 0 {
      LongWalkIsUntrustedRoot(vouches, c, Some(path[0]), path[1..], depth + 1);
    }
  }

  function After(ring: seq<Certificate>, k: nat): nat
    requires k < |ring|
  {
    if k + 1 == |ring| then 0 else k + 1
  }

  /** Certificates of distinct names, each issued by the next and the last by the first. */
  ghost predicate IsRing(vouches: Vouch, ring: seq<Certificate>) {
    && (forall i, j :: 0 <= i < j < |ring| ==> ring[i].subjectDer != ring[j].subjectDer)
    && (forall k :: 0 <= k < |ring| ==>
          ring[k].issuerDer == ring[After(ring, k)].subjectDer && vouches(ring[k], ring[After(ring, k)]))
  }

  /** No certificate of the set bears an anchor's name. */
  ghost predicate NamesNoAnchor(c: Chain) {
    forall a, i :: 0 <= a < |c.anchors| && 0 <= i < |c.issuers| ==> c.anchors[a].subjectDer != c.issuers[i].subjectDer
  }

  lemma RingStep(vouches: Vouch, c: Chain, k: nat)
    requires k < |c.issuers| && IsRing(vouches, c.issuers) && NamesNoAnchor(c)
    ensures var name, next := c.issuers[k].issuerDer, After(c.issuers, k);
            && next < |c.issuers| && vouches(c.issuers[k], c.issuers[next])
            && FindSubject(c.anchors, name, None, 0) == None
            && FindSubject(c.issuers, name, Some(k), 0) == if next == k then None else Some(next)
  {
    var next := After(c.issuers, k);
    if next != k {
      FoundAt(c.issuers, c.issuers[k].issuerDer, Some(k), next);
    }
  }

  /** So a cycle of any length that names no anchor ends that way, wherever the walk enters it. A ring of one
      is a self-issued certificate, which the walk does not follow to itself. */
  lemma {:induction false} CycleIsUntrustedRoot(vouches: Vouch, c: Chain, k: nat, depth: nat)
    requires k < |c.issuers| && IsRing(vouches, c.issuers) && NamesNoAnchor(c) && depth <= MAX_CHAIN_DEPTH
    ensures Walk(vouches, c, Some(k), depth) == ValidUntrustedRoot
    decreases MAX_CHAIN_DEPTH - depth
  {
    hide IsRing, NamesNoAnchor, FindSubject, After;
    if depth < MAX_CHAIN_DEPTH {
      RingStep(vouches, c, k);
      if After(c.issuers, k) != k {
        CycleIsUntrustedRoot(vouches, c, After(c.issuers, k), depth + 1);
      }
    }
  }

  // ---- verify_authenticode ----

  datatype SignerInfo = SignerInfo(
    issuerDer: seq<byte>,
    serialNumber: seq<byte>,
    digestAlgorithmOid: string,
    signedAttrsContent: seq<byte>,
    messageDigest: Option<seq<byte>>,
    signature: seq<byte>)

  /** The parsed CMS SignedData. */
  datatype SignedData = SignedData(
    content: seq<byte>,
    certificates: seq<Certificate>,
    signerInfos: seq<SignerInfo>)

  predicate IsSigner(cert: Certificate, signer: SignerInfo) {
    cert.issuerDer == signer.issuerDer && cert.serialNumber == signer.serialNumber
  }

  /** at is the first certificate of the signer, if there is one. */
  predicate FirstSigner(sd: SignedData, signer: SignerInfo, at: Option<nat>) {
    match at
    case Some(k) =>
      k < |sd.certificates| && IsSigner(sd.certificates[k], signer) &&
      forall i :: 0 <= i < k ==> !IsSigner(sd.certificates[i], signer)
    case None => forall i :: 0 <= i < |sd.certificates| ==> !IsSigner(sd.certificates[i], signer)
  }

  /** The signer's certificate bears the signer's issuer name and serial number, and none before it bears both. */
  lemma SignerIsNamed(sd: SignedData, signer: SignerInfo, k: nat)
    requires k < |sd.certificates|
    ensures FirstSigner(sd, signer, Some(k)) <==>
              && sd.certificates[k].issuerDer == signer.issuerDer
              && sd.certificates[k].serialNumber == signer.serialNumber
              && forall i :: 0 <= i < k ==>
                   sd.certificates[i].issuerDer != signer.issuerDer
                   || sd.certificates[i].serialNumber != signer.serialNumber
  {}

  method FindSignerCertificate(sd: SignedData, signer: SignerInfo) returns (r: Option<nat>)
    ensures FirstSigner(sd, signer, r)
  {
    for i := 0 to |sd.certificates|
      invariant forall k :: 0 <= k < i ==> !IsSigner(sd.certificates[k], signer)
    {
      if sd.certificates[i].issuerDer == signer.issuerDer && sd.certificates[i].serialNumber == signer.serialNumber {
        return Some(i);
      }
    }
    return None;
  }

  /** There is a signer, its certificate has a key, and its digest algorithm is supported. */
  ghost predicate HasSigner(parsed: Option<SignedData>, leaf: Option<nat>) {
    && parsed.Some? && |parsed.value.signerInfos| > 0 && leaf.Some?
    && FirstSigner(parsed.value, parsed.value.signerInfos[0], leaf)
    && parsed.value.certificates[leaf.value].rsaPublicKey.Some?
    && parsed.value.signerInfos[0].digestAlgorithmOid == SHA256_DIGEST_OID
  }

  /** The first signer's key signed the re-tagged attributes. */
  ghost predicate AttributesSigned(d: Digests, sd: SignedData, leaf: nat) {
    && |sd.signerInfos| > 0 && leaf < |sd.certificates| && sd.certificates[leaf].rsaPublicKey.Some?
    && |sd.signerInfos[0].signedAttrsContent| < TWO_64
    && ValidSignature(sd.signerInfos[0].signature, sd.certificates[leaf].rsaPublicKey.value,
                      Sha256Of(d, Asn1.DerSet(sd.signerInfos[0].signedAttrsContent)), SHA256_DIGEST_INFO_PREFIX)
  }

  /** The content is the one the attributes name. */
  ghost predicate ContentNamed(d: Digests, sd: SignedData) {
    && |sd.signerInfos| > 0
    && (sd.signerInfos[0].messageDigest.Some? ==> sd.signerInfos[0].messageDigest.value == Sha256Of(d, sd.content))
  }

  /** The digest that the content claims is the image's. */
  ghost predicate ImageClaimed(d: Digests, sd: SignedData, pe: seq<byte>) {
    Pe.HashedBytes(pe).Some? && ClaimedPeHash(sd.content) == Some(Sha256Of(d, Pe.HashedBytes(pe).value))
  }

  /** Past every check but the chain. */
  ghost predicate BlobCovers(d: Digests, sd: SignedData, pe: seq<byte>, leaf: nat) {
    AttributesSigned(d, sd, leaf) && ContentNamed(d, sd) && ImageClaimed(d, sd, pe)
  }

  /** What every verdict means. A chain verdict (trusted, untrusted root, chain invalid) is given exactly for a
      covering blob, and is then the verdict of the walk from the signer's certificate. */
  method VerifyAuthenticode(d: Digests, pe: seq<byte>, parsed: Option<SignedData>, anchors: seq<Certificate>)
    returns (v: Verdict, signerAt: Option<nat>)
    requires parsed.Some? ==> forall s :: s in parsed.value.signerInfos ==> |s.signedAttrsContent| < TWO_64
    ensures if parsed.None? || |parsed.value.signerInfos| == 0 then signerAt == None
            else FirstSigner(parsed.value, parsed.value.signerInfos[0], signerAt)
    ensures v in {Trusted, ValidUntrustedRoot, ChainInvalid} <==>
              HasSigner(parsed, signerAt) && BlobCovers(d, parsed.value, pe, signerAt.value)
    ensures v in {Trusted, ValidUntrustedRoot, ChainInvalid} ==>
              && HasSigner(parsed, signerAt)
              && var certs := parsed.value.certificates;
                 v == Walk(Vouches(d), Chain(certs[signerAt.value], signerAt, certs, anchors), signerAt, 0)
    ensures v == SignatureInvalid <==>
              HasSigner(parsed, signerAt) && !AttributesSigned(d, parsed.value, signerAt.value)
    ensures v == HashMismatch <==>
              && HasSigner(parsed, signerAt) && AttributesSigned(d, parsed.value, signerAt.value)
              && ContentNamed(d, parsed.value) && ClaimedPeHash(parsed.value.content).Some? && Pe.HashedBytes(pe).Some?
              && !ImageClaimed(d, parsed.value, pe)
  {
    hide ValidSignature, Sha.DigestOf, Walk, Pe.HashedBytes, Asn1.DerSet, ClaimedPeHash;
    signerAt := None;
    if parsed.None? || |parsed.value.signerInfos| == 0 { return Malformed, None; }
    var sd := parsed.value;
    var signer := sd.signerInfos[0];
    assert signer in sd.signerInfos;
    signerAt := FindSignerCertificate(sd, signer);
    if signerAt.None? || sd.certificates[signerAt.value].rsaPublicKey.None? { return Malformed, signerAt; }
    var leaf := sd.certificates[signerAt.value];
    if signer.digestAlgorithmOid != SHA256_DIGEST_OID { return Malformed, signerAt; }
    var setBytes := Asn1.DerEncodeSet(signer.signedAttrsContent);
    var attrsDigest := Sha.Hash(Sha.Sha256(d.c256), setBytes);
    var signatureOk := VerifyPkcs1v15Sha256(signer.signature, leaf.rsaPublicKey.value, attrsDigest);
    if !signatureOk { return SignatureInvalid, signerAt; }
    if signer.messageDigest.Some? {
      var contentDigest := Sha.Hash(Sha.Sha256(d.c256), sd.content);
      if contentDigest != signer.messageDigest.value { return Malformed, signerAt; }
    }
    var claimed := ExtractSpcPeHash(sd.content);
    if claimed.None? { return Malformed, signerAt; }
    var actual := Pe.ComputeAuthenticodePeHashSha256(pe, d.c256);
    if actual.None? { return Malformed, signerAt; }
    assert actual.value == Sha256Of(d, Pe.HashedBytes(pe).value);
    if claimed.value != actual.value { return HashMismatch, signerAt; }
    v := VerifyCertificateChain(d, Chain(leaf, signerAt, sd.certificates, anchors));
  }

  /** Signing invariance carried through: a blob that covers the unsigned image covers the signed one. */
  lemma CoverageSurvivesSigning(d: Digests, sd: SignedData, f: seq<byte>, g: seq<byte>, table: seq<byte>, leaf: nat)
    requires BlobCovers(d, sd, f, leaf)
    requires Pe.FindLayout(f).value.certSize == 0 && Pe.FieldsClear(f, Pe.FindLayout(f).value)
    requires Pe.SignedFrom(f, g, Pe.FindLayout(f).value, table)
    ensures BlobCovers(d, sd, g, leaf)
  {
    Pe.SigningKeepsHash(f, g, table);
    hide ValidSignature, Sha.DigestOf, Pe.HashedBytes, Asn1.DerSet;
  }
}
