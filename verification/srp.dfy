/**
 * Server side of SRP-6a (RFC 2945, premaster secret of section 2.6 of
 * RFC 5054), as in server/pkg/srp/server.go.
 *
 * The hash and byte helpers (`getMultiplier`, `getu`, `getK`, `getM1`,
 * `getM2`, `padToN`, `intFromBytes`) live in files that are not part of this
 * model; they are the fields of a `Primitives` value and are otherwise
 * uninterpreted. The one fact the server's arithmetic needs from them is
 * that `intFromBytes` undoes `padToN` below N (`CodecRoundTrips`).
 */
module Srp {
  import opened Wrappers
  import opened ModArith
  import ByteCodec

  type Byte = ByteCodec.Byte
  type Bytes = seq<Byte>

  /** Group parameters (`SRPParams`): generator g, modulus N and the byte length `padToN` pads to. */
  datatype Params = Params(g: nat, n: nat, nLengthBytes: nat)

  /** The helper functions the server calls, left uninterpreted. */
  datatype Primitives = Primitives(
    multiplier: Params -> nat,                          // getMultiplier: k
    scrambler: (Params, nat, nat) -> nat,               // getu(params, A, B): u
    sessionKey: (Params, Bytes) -> Bytes,               // getK(params, S): K
    clientProof: (Params, Bytes, Bytes, Bytes) -> Bytes, // getM1(params, A, PAD(B), S)
    serverProof: (Params, Bytes, Bytes, Bytes) -> Bytes, // getM2(params, A, M1, K)
    padToN: (nat, Params) -> Bytes,
    intFromBytes: Bytes -> nat)

  /** Errors: the panic of `serverGetS` and the two error returns of `CheckM1`. */
  datatype SrpError =
    | InvalidClientA                                     // "invalid client-supplied 'A', must be 1..N-1"
    | M1LengthMismatch(clientLength: nat, serverLength: nat)
    | PasswordMismatch                                   // "client did not use the same password"

  /** `intFromBytes(padToN(x))` is x for every x below N. */
  ghost predicate CodecRoundTrips(prims: Primitives, params: Params)
  {
    forall x: nat :: x < params.n ==> prims.intFromBytes(prims.padToN(x, params)) == x
  }

  /**
   * `getB`: PAD((k*v + g^b mod N) mod N). Once decoded it is the public
   * value B = (k*v + g^b) % N of RFC 5054 section 2.5.3, a residue below N.
   */
  function GetB(params: Params, prims: Primitives, multiplier: nat, v: nat, b: nat): (bb: Bytes)
    requires params.n > 0
    ensures CodecRoundTrips(prims, params) ==>
      prims.intFromBytes(bb) == (multiplier * v + Pow(params.g, b)) % params.n < params.n
  {
    var final := (multiplier * v + ModPow(params.g, b, params.n)) % params.n;
    ModAddLeft(multiplier * v, Pow(params.g, b), params.n);
    prims.padToN(final, params)
  }

  /**
   * `serverGetS`: rejects any A outside 1..N-1 (the source panics), otherwise
   * PAD(((A * (v^u mod N))^b mod N) mod N); decoded, that is the premaster
   * secret S = (A * v^u)^b % N of RFC 5054 section 2.6.
   */
  function ServerGetS(params: Params, prims: Primitives, v: nat, a: int, secret2: nat, u: nat): (r: Result<Bytes, SrpError>)
    requires params.n > 0
    ensures r.Ok? <==> 0 < a < params.n
    ensures r.Err? ==> r.error == InvalidClientA
    ensures r.Ok? && CodecRoundTrips(prims, params) ==>
      prims.intFromBytes(r.value) == Pow(a as nat * Pow(v, u), secret2) % params.n < params.n
  {
    if a <= 0 || params.n <= a then
      Err(InvalidClientA)
    else
      var n := params.n;
      var result1 := ModPow(v, u, n);
      var result2 := a * result1;
      var result3 := ModPow(result2, secret2, n);
      var result4 := result3 % n;
      SecretMatchesRfc(a, v, u, secret2, n);
      Ok(prims.padToN(result4, params))
  }

  /** ((A * (v^u mod N))^b mod N) mod N equals (A * v^u)^b mod N. */
  lemma SecretMatchesRfc(a: nat, v: nat, u: nat, b: nat, n: nat)
    requires n > 0
    ensures (Pow(a * (Pow(v, u) % n), b) % n) % n == Pow(a * Pow(v, u), b) % n
  {
    var y := Pow(v, u);
    var reduced, full := a * (y % n), a * y;
    ModMulRight(a, y, n);
    PowCongruent(reduced, full, b, n);
    ModOfMod(Pow(reduced, b), n);
  }

  /**
   * The guard is stricter than section 2.5.4 of RFC 5054, which only asks
   * that A % N != 0: A = N + 1 passes the RFC's check and is rejected here.
   */
  lemma GuardStricterThanRfc(params: Params, prims: Primitives, v: nat, secret2: nat, u: nat)
    requires params.n > 1
    ensures (params.n + 1) % params.n != 0
    ensures ServerGetS(params, prims, v, params.n + 1, secret2, u).Err?
  {
    ModUnique(params.n + 1, params.n, 1, 1);
  }

  /** Every accepted A is non-zero modulo N, so the guard implies the RFC's check. */
  lemma GuardImpliesRfcCheck(params: Params, prims: Primitives, v: nat, a: int, secret2: nat, u: nat)
    requires params.n > 0
    requires ServerGetS(params, prims, v, a, secret2, u).Ok?
    ensures a % params.n != 0
  {
    ModUnique(a as nat, params.n, 0, a as nat);
  }

  /** `SRPServer`: the state of one SRP exchange on the server. */
  class SrpServer {
    const prims: Primitives
    var params: Params
    var verifier: nat
    var secret2: nat
    var b: nat
    var m1: Bytes
    var m2: Bytes
    var k: Bytes
    var u: Option<nat>   // only for tests; nil until SetA
    var s: Option<nat>   // only for tests; nil until SetA

    /** B is a residue below N whenever the byte codec round-trips. */
    ghost predicate Valid()
      reads this
    {
      params.n > 0 && (CodecRoundTrips(prims, params) ==> b < params.n)
    }

    /** `NewServer`: decodes v and b, computes B = (k*v + g^b) % N; M1, M2 and K are still empty. */
    constructor NewServer(params: Params, prims: Primitives, vb: Bytes, s2b: Bytes)
      requires params.n > 0
      ensures Valid()
      ensures this.params == params && this.prims == prims
      ensures verifier == prims.intFromBytes(vb) && secret2 == prims.intFromBytes(s2b)
      ensures b == prims.intFromBytes(GetB(params, prims, prims.multiplier(params), verifier, secret2))
      ensures CodecRoundTrips(prims, params) ==>
        b == (prims.multiplier(params) * verifier + Pow(params.g, secret2)) % params.n
      ensures m1 == [] && m2 == [] && k == [] && u == None && s == None
    {
      var multiplier := prims.multiplier(params);
      var v := prims.intFromBytes(vb);
      var sec := prims.intFromBytes(s2b);
      var bb := GetB(params, prims, multiplier, v, sec);
      this.prims := prims;
      this.params := params;
      this.verifier := v;
      this.secret2 := sec;
      this.b := prims.intFromBytes(bb);
      this.m1, this.m2, this.k := [], [], [];
      this.u, this.s := None, None;
    }

    /** `ComputeB`: PAD(B); it decodes back to B and changes nothing. */
    method ComputeB() returns (bb: Bytes)
      requires Valid()
      ensures bb == prims.padToN(b, params)
      ensures CodecRoundTrips(prims, params) ==> prims.intFromBytes(bb) == b
    {
      bb := prims.padToN(b, params);
    }

    /**
     * `SetA`: from the client's A derives u and S, then K = H(S),
     * M1 = getM1(A, PAD(B), S) and M2 = getM2(A, M1, K). An A outside
     * 1..N-1 aborts before any field is written.
     */
    method SetA(aBytes: Bytes) returns (r: Result<(), SrpError>)
      requires Valid()
      modifies this
      ensures Valid()
      ensures params == old(params) && verifier == old(verifier) && secret2 == old(secret2) && b == old(b)
      ensures
        var a := prims.intFromBytes(aBytes);
        var uu := prims.scrambler(params, a, b);
        var sb := ServerGetS(params, prims, verifier, a, secret2, uu);
        if sb.Err? then
          r == Err(sb.error) &&
          m1 == old(m1) && m2 == old(m2) && k == old(k) && u == old(u) && s == old(s)
        else
          r == Ok(()) &&
          k == prims.sessionKey(params, sb.value) &&
          m1 == prims.clientProof(params, aBytes, prims.padToN(b, params), sb.value) &&
          m2 == prims.serverProof(params, aBytes, m1, k) &&
          u == Some(uu) && s == Some(prims.intFromBytes(sb.value))
    {
      var a := prims.intFromBytes(aBytes);
      var uu := prims.scrambler(params, a, b);
      var sb := ServerGetS(params, prims, verifier, a, secret2, uu);
      if sb.Err? {
        return Err(sb.error);
      }
      var premaster := sb.value;
      k := prims.sessionKey(params, premaster);
      m1 := prims.clientProof(params, aBytes, prims.padToN(b, params), premaster);
      m2 := prims.serverProof(params, aBytes, m1, k);
      u := Some(uu);
      s := Some(prims.intFromBytes(premaster));
      r := Ok(());
    }

    /**
     * `CheckM1`: M2 is released exactly when the client's M1 equals the
     * stored one byte for byte; a length difference and a content
     * difference are reported as different errors.
     */
    method CheckM1(clientM1: Bytes) returns (r: Result<Bytes, SrpError>)
      ensures r.Ok? <==> clientM1 == m1
      ensures r.Ok? ==> r.value == m2
      ensures |clientM1| != |m1| ==> r == Err(M1LengthMismatch(|clientM1|, |m1|))
      ensures |clientM1| == |m1| && clientM1 != m1 ==> r == Err(PasswordMismatch)
    {
      if |m1| != |clientM1| {
        return Err(M1LengthMismatch(|clientM1|, |m1|));
      }
      if m1 != clientM1 {
        r := Err(PasswordMismatch);
      } else {
        r := Ok(m2);
      }
    }

    /** `ComputeK`: the session key K written by the last successful `SetA`. */
    method ComputeK() returns (key: Bytes)
      ensures key == k
    {
      key := k;
    }
  }

  /** The big-endian codec satisfies the round-trip assumption when N fits in the padded length. */
  lemma BigEndianRoundTrips(prims: Primitives, params: Params)
    requires forall x: nat, p: Params :: prims.padToN(x, p) == ByteCodec.PadTo(x, p.nLengthBytes)
    requires forall bs: Bytes :: prims.intFromBytes(bs) == ByteCodec.IntFromBytes(bs)
    requires params.n <= Pow(256, params.nLengthBytes)
    ensures CodecRoundTrips(prims, params)
  {
    forall x: nat | x < params.n
      ensures prims.intFromBytes(prims.padToN(x, params)) == x
    {
      ByteCodec.IntFromPadTo(x, params.nLengthBytes);
    }
  }

  /**
   * An honest run: after a successful `SetA`, presenting the server's own M1
   * yields exactly M2 = getM2(A, M1, K), and K is the key `ComputeK` returns.
   */
  method HonestExchange(params: Params, prims: Primitives, vb: Bytes, s2b: Bytes, aBytes: Bytes)
    returns (accepted: bool, m2: Bytes, key: Bytes)
    requires params.n > 0
    ensures accepted <==> 0 < prims.intFromBytes(aBytes) < params.n
    ensures accepted ==>
      var v, sec, a := prims.intFromBytes(vb), prims.intFromBytes(s2b), prims.intFromBytes(aBytes);
      var b := prims.intFromBytes(GetB(params, prims, prims.multiplier(params), v, sec));
      var sb := ServerGetS(params, prims, v, a, sec, prims.scrambler(params, a, b));
      sb.Ok? &&
      key == prims.sessionKey(params, sb.value) &&
      m2 == prims.serverProof(params, aBytes, prims.clientProof(params, aBytes, prims.padToN(b, params), sb.value), key)
  {
    var server := new SrpServer.NewServer(params, prims, vb, s2b);
    var outcome := server.SetA(aBytes);
    m2, key := [], [];
    accepted := outcome.Ok?;
    if accepted {
      var claimed := server.m1;
      var check := server.CheckM1(claimed);
      key := server.ComputeK();
      m2 := check.value;
    }
  }
}
