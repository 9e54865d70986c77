/** The storage node's KZG prover and the chain node's opening check. */
module Kzg {
  import opened Bytes
  import opened Common
  import opened Polynomials

  /** A G1 point, known by the scalar that multiplies the generator. */
  datatype G1 = G1(scalar: Fr)
  {
    function Plus(other: G1): G1 { G1(Mod(scalar + other.scalar)) }

    function Times(k: Fr): G1 { G1(Mod(scalar * k)) }
  }

  const IDENTITY := G1(0)
  const GENERATOR := G1(1)

  /** The structured reference string holds the powers of tau. */
  ghost predicate IsSrs(srs: seq<G1>, tau: Fr)
  {
    forall i :: 0 <= i < |srs| ==> srs[i] == G1(Mod(Power(tau, i)))
  }

  /** The point that commits to p under the secret tau. */
  ghost function Commitment(p: seq<Fr>, tau: Fr): G1
  {
    G1(Eval(p, tau))
  }

  /** e(C - y*G1, G2) = e(proof, (tau - z)*G2), in the exponents. */
  predicate Opens(c: G1, z: Fr, y: Fr, proof: G1, tau: Fr)
  {
    Mod(c.scalar - y) == Mod(proof.scalar * (tau - z))
  }

  /** Sum of coefficient times SRS point. */
  ghost function Combination(coeffs: seq<Fr>, srs: seq<G1>): G1
    requires |coeffs| <= |srs|
  {
    if coeffs == [] then IDENTITY
    else
      var n := |coeffs| - 1;
      Combination(coeffs[..n], srs).Plus(srs[n].Times(coeffs[n]))
  }

  lemma {:induction false} CombinationCommits(coeffs: seq<Fr>, srs: seq<G1>, tau: Fr)
    requires |coeffs| <= |srs| && IsSrs(srs, tau)
    ensures Combination(coeffs, srs) == Commitment(coeffs, tau)
  {
    hide Mod;
    if coeffs == [] {
      ModSmall(0);
    } else {
      var n := |coeffs| - 1;
      CombinationCommits(coeffs[..n], srs, tau);
      assert coeffs == coeffs[..n] + [coeffs[n]];
      EvalSnoc(coeffs[..n], coeffs[n], tau);
      ModMul(Power(tau, n), coeffs[n]);
      assert Power(tau, n) * coeffs[n] == coeffs[n] * Power(tau, n);
      ModSum(EvalZ(coeffs[..n], tau), Power(tau, n) * coeffs[n]);
    }
  }

  /** The quotient commitment opens the polynomial at z to f(z) and to no other value. */
  lemma OpeningIsExact(f: seq<Fr>, z: Fr, y: Fr, tau: Fr)
    requires f != []
    ensures Opens(Commitment(f, tau), z, y, Commitment(Quotient(f, z), tau), tau) <==> y == Eval(f, z)
  {
    hide Eval, Mod, Quotient;
    Division(f, z, tau);
    CancelValue(Eval(f, tau), (tau - z) * Eval(Quotient(f, z), tau), Eval(f, z), y);
    assert (tau - z) * Eval(Quotient(f, z), tau) == Eval(Quotient(f, z), tau) * (tau - z);
  }

  lemma CancelValue(c: Fr, product: int, value: Fr, y: Fr)
    requires c == Mod(product + value)
    ensures Mod(c - y) == Mod(product) <==> y == value
  {
    hide Mod;
    ModAdd(product + value, 0 - y);
    if y == value {
      assert product + value - y == product;
    } else if Mod(c - y) == Mod(product) {
      ModAdd(product + value - y, -product);
      ModAdd(product, -product);
      assert Mod(value - y) == Mod(0);
      if value > y {
        ModSmall(value - y);
        ModSmall(0);
      } else {
        ModCong(value - y + R, value - y, 1);
        ModSmall(value - y + R);
        ModSmall(0);
      }
    }
  }

  // --------------------------------------------------------------- the prover --

  datatype StoredShare = StoredShare(contentHash: seq<byte>, shareIndex: byte, shareValue: seq<byte>, polynomialCoeffs: seq<byte>)

  /** The coefficients in a byte string of 32-byte little-endian scalars. */
  ghost function Coefficients(bytes: seq<byte>): (p: seq<Fr>)
    requires |bytes| % 32 == 0
    ensures |p| == |bytes| / 32
  {
    seq(|bytes| / 32, i requires 0 <= i < |bytes| / 32 => Mod(LeValue(bytes[32 * i..32 * i + 32])))
  }

  /** Why a challenge gets no proof. */
  datatype ProofError = ShareNotFound | SrsNotLoaded | Misaligned | EmptyCoefficients | EmptyPolynomial | DegreeExceedsSrs

  /** What is wrong with stored coefficients that admit no proof. */
  ghost function CoefficientError(bytes: seq<byte>): ProofError
  {
    if |bytes| % 32 != 0 then Misaligned
    else if bytes == [] then EmptyCoefficients
    else if Dense(Coefficients(bytes)) == [] then EmptyPolynomial
    else DegreeExceedsSrs
  }

  type Key = (seq<byte>, byte)

  datatype ShareOp = Store(share: StoredShare) | Remove(contentHash: seq<byte>, shareIndex: byte)
  {
    function Key(): Key { if Store? then (share.contentHash, share.shareIndex) else (contentHash, shareIndex) }
  }

  function Apply(shares: map<Key, StoredShare>, op: ShareOp): map<Key, StoredShare>
  {
    match op
    case Store(share) => shares[op.Key() := share]
    case Remove(_, _) => shares - {op.Key()}
  }

  /** The shares held after a run of stores and removals. */
  ghost function Held(shares: map<Key, StoredShare>, ops: seq<ShareOp>): map<Key, StoredShare>
  {
    if ops == [] then shares else Apply(Held(shares, ops[..|ops| - 1]), ops[|ops| - 1])
  }

  function Lookup(shares: map<Key, StoredShare>, key: Key): Option<StoredShare>
  {
    if key in shares then Some(shares[key]) else None
  }

  /** A right response to a challenge on what is stored under its key: the stored value with a proof that opens the
      stored polynomial there to its true value only, or the reason why there is none. */
  ghost predicate Answers(stored: Option<StoredShare>, srs: seq<G1>, shareIndex: byte, r: Result<(seq<byte>, G1), ProofError>)
  {
    if stored == None then r == Err(ShareNotFound)
    else if srs == [] then r == Err(SrsNotLoaded)
    else
      var bytes := stored.value.polynomialCoeffs;
      if |bytes| % 32 != 0 || !(1 <= |Dense(Coefficients(bytes))| <= |srs| + 1) then r == Err(CoefficientError(bytes))
      else
        && r.Ok? && r.value.0 == stored.value.shareValue
        && forall tau :: IsSrs(srs, tau) ==> Proves(Coefficients(bytes), shareIndex, r.value.1, tau)
  }

  /** The proof is the commitment to the quotient, and is accepted for f(z) and for no other value. */
  ghost predicate Proves(f: seq<Fr>, z: Fr, proof: G1, tau: Fr)
    requires Dense(f) != []
  {
    proof == Commitment(Quotient(Dense(f), z), tau) && OpensOnlyAt(Commitment(f, tau), z, proof, tau, Eval(f, z))
  }

  /** Dropping leading zero coefficients changes neither values nor the commitment. */
  lemma DenseIsSame(f: seq<Fr>, z: Fr, tau: Fr)
    ensures Eval(Dense(f), z) == Eval(f, z) && Commitment(Dense(f), tau) == Commitment(f, tau)
    ensures Dense(Dense(f)) == Dense(f)
  {
    EvalDense(f, z);
    EvalDense(f, tau);
  }

  /** A proof for the dense form is a proof for the coefficients as stored. */
  lemma ProvesStored(f: seq<Fr>, z: Fr, proof: G1, tau: Fr)
    requires Dense(f) != [] && Dense(Dense(f)) == Dense(f) && Proves(Dense(f), z, proof, tau)
    ensures Proves(f, z, proof, tau)
  {
    hide OpensOnlyAt, Commitment, Quotient, Eval;
    DenseIsSame(f, z, tau);
  }

  lemma {:induction false} LookupAfter(shares: map<Key, StoredShare>, first: ShareOp, others: seq<ShareOp>)
    requires forall i :: 0 <= i < |others| ==> others[i].Key() != first.Key()
    ensures Lookup(Held(shares, [first] + others), first.Key()) == if first.Store? then Some(first.share) else None
  {
    var ops := [first] + others;
    if others == [] {
      assert Held(shares, ops[..0]) == shares;
    } else {
      var last := others[|others| - 1];
      assert ops[..|ops| - 1] == [first] + others[..|others| - 1] && ops[|ops| - 1] == last;
      LookupAfter(shares, first, others[..|others| - 1]);
      assert last.Key() != first.Key();
    }
  }

  /** Once stored, a share answers the challenges on its key whatever is stored or removed under other keys; once
      removed, they find no share. */
  lemma LastWriteAnswers(shares: map<Key, StoredShare>, op: ShareOp, others: seq<ShareOp>, srs: seq<G1>,
                         r: Result<(seq<byte>, G1), ProofError>)
    requires forall i :: 0 <= i < |others| ==> others[i].Key() != op.Key()
    requires Answers(Lookup(Held(shares, [op] + others), op.Key()), srs, op.Key().1, r)
    ensures op.Store? ==> Answers(Some(op.share), srs, op.share.shareIndex, r)
    ensures op.Remove? ==> r == Err(ShareNotFound)
  {
    LookupAfter(shares, op, others);
  }

  class KzgProver {
    var shares: map<Key, StoredShare>
    var srsG1: seq<G1>
    var tauG2: Option<Fr>

    constructor ()
      ensures shares == map[] && srsG1 == [] && tauG2 == None
    {
      shares, srsG1, tauG2 := map[], [], None;
    }

    /** The deterministic development setup: tau = 12345. */
    method InitTestSrs(maxDegree: nat)
      modifies this`srsG1, this`tauG2
      ensures IsSrs(srsG1, 12345) && |srsG1| == maxDegree + 1 && tauG2 == Some(12345)
    {
      hide Mod;
      var tau: Fr := 12345;
      var powers: seq<G1> := [];
      var tauPower: Fr := 1;
      ModSmall(1);
      for i := 0 to maxDegree + 1
        invariant |powers| == i && IsSrs(powers, tau)
        invariant tauPower == Mod(Power(tau, i))
      {
        ModIdem(Power(tau, i));
        powers := powers + [GENERATOR.Times(tauPower)];
        ModMul(Power(tau, i), tau);
        tauPower := Mod(tauPower * tau);
      }
      srsG1, tauG2 := powers, Some(tau);
    }

    method StoreShare(share: StoredShare)
      modifies this`shares
      ensures shares == Apply(old(shares), Store(share))
    {
      shares := shares[(share.contentHash, share.shareIndex) := share];
    }

    method RemoveShare(contentHash: seq<byte>, shareIndex: byte)
      modifies this`shares
      ensures shares == Apply(old(shares), Remove(contentHash, shareIndex))
    {
      shares := shares - {(contentHash, shareIndex)};
    }

    method EvaluatePolynomial(poly: seq<Fr>, x: Fr) returns (result: Fr)
      ensures result == Eval(poly, x)
    {
      hide Mod, EvalZ, Power;
      EvalNothing(x);
      result := 0;
      var xPower: Fr := 1;
      assert poly[..0] == [];
      for i := 0 to |poly|
        invariant result == Eval(poly[..i], x)
        invariant xPower == Mod(Power(x, i))
      {
        EvalStep(poly, x, i);
        result := Mod(result + Mod(poly[i] * xPower));
        xPower := Mod(xPower * x);
      }
      assert poly[..|poly|] == poly;
    }

    static lemma EvalNothing(x: Fr)
      ensures Eval([], x) == 0 && Mod(Power(x, 0)) == 1
    {
    }

    static lemma EvalStep(poly: seq<Fr>, x: Fr, i: nat)
      requires i < |poly|
      ensures Eval(poly[..i + 1], x) == Mod(Eval(poly[..i], x) + Mod(poly[i] * Mod(Power(x, i))))
      ensures Mod(Power(x, i + 1)) == Mod(Mod(Power(x, i)) * x)
    {
      hide Mod, EvalZ;
      assert poly[..i + 1] == poly[..i] + [poly[i]];
      EvalSnoc(poly[..i], poly[i], x);
      ModFused(Eval(poly[..i], x), poly[i], Power(x, i));
      ModAdd(EvalZ(poly[..i], x), poly[i] * Power(x, i));
      ModMul(Power(x, i), x);
    }

    /** Synthetic division from the leading coefficient down; the claimed value is not used. */
    method ComputeQuotient(coeffs: seq<Fr>, z: Fr, y: Fr) returns (r: Result<seq<Fr>, ProofError>)
      ensures r == if coeffs == [] then Err(EmptyPolynomial) else Ok(Dense(Quotient(coeffs, z)))
    {
      hide Mod, EvalZ, Quotient;
      if coeffs == [] {
        return Err(EmptyPolynomial);
      }
      var n := |coeffs|;
      var quotientCoeffs := new Fr[n - 1](_ => 0);
      if n > 1 {
        quotientCoeffs[n - 2] := coeffs[n - 1];
        LeadingQuotient(coeffs, z);
        for i := n - 2 downto 0
          invariant forall j :: i <= j < n - 1 ==> quotientCoeffs[j] == Quotient(coeffs, z)[j]
        {
          QuotientStep(coeffs, z, i);
          quotientCoeffs[i] := Mod(coeffs[i + 1] + Mod(z * quotientCoeffs[i + 1]));
        }
      }
      assert quotientCoeffs[..] == Quotient(coeffs, z);
      r := Ok(Dense(quotientCoeffs[..]));
    }

    static lemma LeadingQuotient(p: seq<Fr>, z: Fr)
      requires |p| > 1
      ensures Quotient(p, z)[|p| - 2] == p[|p| - 1]
    {
      var lead := p[|p| - 1..];
      assert EvalZ(lead, z) == lead[0] + z * EvalZ(lead[1..], z);
      ModSmall(lead[0]);
    }

    static lemma QuotientStep(p: seq<Fr>, z: Fr, i: nat)
      requires i + 2 < |p|
      ensures Quotient(p, z)[i] == Mod(p[i + 1] + Mod(z * Quotient(p, z)[i + 1]))
    {
      hide Mod;
      assert p[i + 1..][1..] == p[i + 2..];
      ModFused(p[i + 1], z, EvalZ(p[i + 2..], z));
    }

    /** The multi-scalar sum over the SRS. */
    method CommitToPolynomial(coeffs: seq<Fr>) returns (r: Result<G1, ProofError>)
      ensures r == if |coeffs| <= |srsG1| then Ok(Combination(coeffs, srsG1)) else Err(DegreeExceedsSrs)
      ensures forall tau :: IsSrs(srsG1, tau) && r.Ok? ==> r.value == Commitment(coeffs, tau)
    {
      hide Mod;
      if |coeffs| > |srsG1| {
        return Err(DegreeExceedsSrs);
      }
      var commitment := IDENTITY;
      for i := 0 to |coeffs|
        invariant commitment == Combination(coeffs[..i], srsG1)
      {
        assert coeffs[..i + 1][..i] == coeffs[..i];
        commitment := commitment.Plus(srsG1[i].Times(coeffs[i]));
      }
      assert coeffs[..|coeffs|] == coeffs;
      forall tau | IsSrs(srsG1, tau) ensures commitment == Commitment(coeffs, tau) {
        CombinationCommits(coeffs, srsG1, tau);
      }
      r := Ok(commitment);
    }

    method DecodePolynomialCoeffs(bytes: seq<byte>) returns (r: Result<seq<Fr>, ProofError>)
      ensures |bytes| % 32 != 0 <==> r == Err(Misaligned)
      ensures |bytes| % 32 == 0 <==> r.Ok?
      ensures r.Ok? ==> r.value == Coefficients(bytes)
    {
      hide Mod, LeValue;
      if |bytes| % 32 != 0 {
        return Err(Misaligned);
      }
      var coeffs: seq<Fr> := [];
      for i := 0 to |bytes| / 32
        invariant |coeffs| == i
        invariant forall j :: 0 <= j < i ==> coeffs[j] == Mod(LeValue(bytes[32 * j..32 * j + 32]))
      {
        coeffs := coeffs + [Mod(LeValue(bytes[32 * i..32 * i + 32]))];
      }
      assert coeffs == Coefficients(bytes);
      r := Ok(coeffs);
    }

    /** An opening proof exists exactly when the polynomial is non-zero and the SRS holds its quotient. */
    method GenerateKzgProof(polynomial: seq<Fr>, index: byte) returns (r: Result<G1, ProofError>)
      requires Dense(polynomial) == polynomial
      ensures r.Ok? <==> polynomial != [] && |polynomial| - 1 <= |srsG1|
      ensures r.Err? ==> r.error == if polynomial == [] then EmptyPolynomial else DegreeExceedsSrs
      ensures forall tau :: r.Ok? && IsSrs(srsG1, tau) ==> Proves(polynomial, index, r.value, tau)
    {
      hide Mod, EvalZ, Eval, Combination, Quotient;
      var x: Fr := index;
      var y := EvaluatePolynomial(polynomial, x);
      var quotient := ComputeQuotient(polynomial, x, y);
      if quotient.Err? {
        return Err(quotient.error);
      }
      QuotientIsDense(polynomial, x);
      r := CommitToPolynomial(quotient.value);
      forall tau | r.Ok? && IsSrs(srsG1, tau) ensures Proves(polynomial, x, r.value, tau) {
        forall y: Fr ensures Opens(Commitment(polynomial, tau), x, y, r.value, tau) <==> y == Eval(polynomial, x) {
          OpeningIsExact(polynomial, x, y, tau);
        }
      }
    }

    /** Dividing a dense polynomial leaves its leading coefficient in front, so nothing is dropped. */
    static lemma QuotientIsDense(p: seq<Fr>, z: Fr)
      requires p != [] && p == Dense(p)
      ensures Dense(Quotient(p, z)) == Quotient(p, z)
    {
      if |p| > 1 {
        LeadingQuotient(p, z);
        assert p[|p| - 1] != 0;
      }
    }

    /** The response to a storage challenge: the stored value, and a proof about the stored polynomial. */
    method GenerateProofForChallenge(contentHash: seq<byte>, shareIndex: byte)
      returns (r: Result<(seq<byte>, G1), ProofError>)
      ensures Answers(Lookup(shares, (contentHash, shareIndex)), srsG1, shareIndex, r)
    {
      hide Mod, EvalZ, Eval, Coefficients, Opens;
      var key := (contentHash, shareIndex);
      if key !in shares {
        return Err(ShareNotFound);
      }
      var share := shares[key];
      if srsG1 == [] {
        return Err(SrsNotLoaded);
      }
      var coeffs := DecodePolynomialCoeffs(share.polynomialCoeffs);
      if coeffs.Err? {
        return Err(coeffs.error);
      }
      if coeffs.value == [] {
        return Err(EmptyCoefficients);
      }
      var polynomial := Dense(coeffs.value);
      var proof := GenerateKzgProof(polynomial, shareIndex);
      if proof.Err? {
        return Err(proof.error);
      }
      assert Dense(coeffs.value) == polynomial && Dense(polynomial) == polynomial;
      forall tau | IsSrs(srsG1, tau) ensures Proves(coeffs.value, shareIndex, proof.value, tau) {
        ProvesStored(coeffs.value, shareIndex, proof.value, tau);
      }
      r := Ok((share.shareValue, proof.value));
    }
  }

  /** The proof is accepted at z for this value and for no other. */
  ghost predicate OpensOnlyAt(c: G1, z: Fr, proof: G1, tau: Fr, value: Fr)
  {
    forall y: Fr :: Opens(c, z, y, proof, tau) <==> y == value
  }

  // -------------------------------------------------------------- the verifier --

  /** The chain node's `verify_kzg_proof`, after point decoding. */
  function VerifyKzgProof(commitment: G1, shareIndex: byte, shareValue: seq<byte>, proof: G1, tau: Fr): Result<bool, string>
  {
    if |shareValue| != 32 then Err("Invalid share_value length")
    else if shareIndex == 0 then Err("share_index must be >= 1")
    else if LeValue(shareValue) >= R then Err("Invalid scalar value")
    else Ok(Opens(commitment, shareIndex, LeValue(shareValue), proof, tau))
  }

  /** The check is the opening equation commitment = y*G + (tau - x)*proof, on well-formed arguments. */
  lemma VerifyEquation(commitment: G1, shareIndex: byte, shareValue: seq<byte>, proof: G1, tau: Fr)
    ensures var result, y := VerifyKzgProof(commitment, shareIndex, shareValue, proof, tau), LeValue(shareValue);
      && (result.Err? <==> |shareValue| != 32 || shareIndex == 0 || y >= R)
      && (result.Ok? ==> y < R && result.value == (commitment == GENERATOR.Times(y).Plus(proof.Times(Mod(tau - shareIndex)))))
  {
    hide LeValue, Mod;
    var y := LeValue(shareValue);
    if VerifyKzgProof(commitment, shareIndex, shareValue, proof, tau).Ok? {
      MoveTerm(commitment.scalar, y, proof.scalar, tau - shareIndex);
    }
  }

  lemma MoveTerm(c: Fr, y: Fr, p: Fr, d: int)
    ensures Mod(c - y) == Mod(p * d) <==> c == Mod(Mod(1 * y) + Mod(p * Mod(d)))
  {
    hide Mod;
    ModSmall(y);
    ModMul(d, p);
    assert Mod(d) * p == p * Mod(d) && d * p == p * d;
    ModAdd(p * d, y);
    assert Mod(p * d) + y == y + Mod(p * d);
    ModAdd(c - y, y);
    ModAdd(p * d + y, 0 - y);
    ModSmall(c);
    assert c - y + y == c && p * d + y + (0 - y) == p * d;
  }

  /** The prover's response passes the chain node's check exactly when the index is not 0 and the share value is the
      32-byte little-endian value of the polynomial there. */
  lemma ChallengeAccepted(f: seq<Fr>, shareIndex: byte, shareValue: seq<byte>, tau: Fr)
    requires f != []
    ensures VerifyKzgProof(Commitment(f, tau), shareIndex, shareValue, Commitment(Quotient(f, shareIndex), tau), tau) == Ok(true)
       <==> shareIndex != 0 && |shareValue| == 32 && LeValue(shareValue) == Eval(f, shareIndex)
  {
    hide Opens, Eval, LeValue, Commitment, Quotient;
    if LeValue(shareValue) < R {
      OpeningIsExact(f, shareIndex, LeValue(shareValue), tau);
    }
  }

  /** A stored share's response passes the check against the commitment to its stored coefficients exactly when the index
      is not 0 and the stored value is the 32-byte little-endian value of the stored polynomial there. */
  lemma ResponseAccepted(share: StoredShare, srs: seq<G1>, shareIndex: byte, r: Result<(seq<byte>, G1), ProofError>, tau: Fr)
    requires Answers(Some(share), srs, shareIndex, r) && r.Ok? && IsSrs(srs, tau)
    ensures |share.polynomialCoeffs| % 32 == 0
    ensures var f := Coefficients(share.polynomialCoeffs);
      VerifyKzgProof(Commitment(f, tau), shareIndex, r.value.0, r.value.1, tau) == Ok(true)
      <==> shareIndex != 0 && |share.shareValue| == 32 && LeValue(share.shareValue) == Eval(f, shareIndex)
  {
    hide Opens, Eval, LeValue, Commitment, Quotient, Coefficients, VerifyKzgProof, OpensOnlyAt;
    var f := Coefficients(share.polynomialCoeffs);
    assert Proves(f, shareIndex, r.value.1, tau);
    DenseIsSame(f, shareIndex, tau);
    ChallengeAccepted(Dense(f), shareIndex, share.shareValue, tau);
  }
}
