/** One candidate's decoding attempt: belief propagation with its
    ordered-statistics fallback, gated by the parity checks and the CRC. */
module Ft8Decode {
  import opened Gf2
  import opened Options
  import opened Bytes
  import opened Ft8Code
  import opened Ft8Crc
  import opened Ft8Osd

  // ---------- belief propagation, its soft arithmetic taken as given ----------

  /** Iteration t may stop with success: not all zeros, and every check holds. */
  ghost predicate Converges(h: Checks, decisions: seq<Vec>, t: nat)
    requires CheckTable(h) && Matrix(decisions, N) && t < |decisions|
  {
    && decisions[t] != Zero(N) && Satisfies(h, decisions[t])
    && forall s :: 0 <= s < t ==> decisions[s] != Zero(N) && !Satisfies(h, decisions[s])
  }

  ghost predicate NeverConverges(h: Checks, decisions: seq<Vec>)
    requires CheckTable(h) && Matrix(decisions, N)
  {
    forall t: nat :: t < |decisions| ==> !Converges(h, decisions, t)
  }

  /** The bits of the first iteration that converges. */
  ghost predicate ByPropagation(h: Checks, decisions: seq<Vec>, bits: Vec)
    requires CheckTable(h) && Matrix(decisions, N)
  {
    exists t: nat :: t < |decisions| && Converges(h, decisions, t) && bits == decisions[t]
  }

  /** Iteration t is looked at: none before it was all zeros or converged. */
  ghost predicate Examined(h: Checks, decisions: seq<Vec>, t: nat)
    requires CheckTable(h) && Matrix(decisions, N) && t < |decisions|
  {
    && decisions[t] != Zero(N)
    && forall s :: 0 <= s < t ==> decisions[s] != Zero(N) && !Satisfies(h, decisions[s])
  }

  /** The fewest checks that an examined iteration violates, 83 if there is none. */
  ghost predicate LowestSeen(h: Checks, decisions: seq<Vec>, errors: nat)
    requires CheckTable(h) && Matrix(decisions, N)
  {
    && (forall t: nat :: t < |decisions| && Examined(h, decisions, t) ==> errors <= Violations(h, decisions[t], M))
    && (errors == M ||
        exists t: nat :: t < |decisions| && Examined(h, decisions, t) && errors == Violations(h, decisions[t], M))
  }

  /** The fewest of the first n iterations, 83 before the first. */
  ghost predicate LowestOf(h: Checks, decisions: seq<Vec>, n: nat, errors: nat)
    requires CheckTable(h) && Matrix(decisions, N) && n <= |decisions|
  {
    && (forall t: nat :: t < n ==> errors <= Violations(h, decisions[t], M))
    && (errors == M || exists t: nat :: t < n && errors == Violations(h, decisions[t], M))
  }

  /** Nothing before iteration n was all zeros or converged. */
  ghost predicate Unfinished(h: Checks, decisions: seq<Vec>, n: nat)
    requires CheckTable(h) && Matrix(decisions, N) && n <= |decisions|
  {
    forall s :: 0 <= s < n ==> decisions[s] != Zero(N) && !Satisfies(h, decisions[s])
  }

  /** When iteration n ends the search with nothing found, or there is none. */
  lemma SearchEnds(h: Checks, decisions: seq<Vec>, n: nat, errors: nat)
    requires CheckTable(h) && Matrix(decisions, N) && n <= |decisions| && LowestOf(h, decisions, n, errors)
    requires Unfinished(h, decisions, n) && (n == |decisions| || decisions[n] == Zero(N))
    ensures LowestSeen(h, decisions, errors) && NeverConverges(h, decisions)
  {
    hide Satisfies, Violations;
    forall t: nat | t < n
      ensures Examined(h, decisions, t)
    {
    }
  }

  /** When iteration n converges. */
  lemma SearchSucceeds(h: Checks, decisions: seq<Vec>, n: nat)
    requires CheckTable(h) && Matrix(decisions, N) && n < |decisions| && Unfinished(h, decisions, n)
    requires decisions[n] != Zero(N) && Satisfies(h, decisions[n]) && Violations(h, decisions[n], M) == 0
    ensures LowestSeen(h, decisions, 0) && ByPropagation(h, decisions, decisions[n])
  {
    hide Satisfies, Violations;
    assert Examined(h, decisions, n) && Converges(h, decisions, n);
  }

  method CopyCounting(v: Vec) returns (plain: seq<bool>, plainSum: nat)
    ensures plain == v && (plainSum == 0 <==> v == Zero(|v|))
  {
    plain, plainSum := [], 0;
    for n := 0 to |v|
      invariant plain == v[..n]
      invariant plainSum == 0 <==> forall i :: 0 <= i < n ==> !v[i]
    {
      plain := plain + [v[n]];
      if v[n] {
        plainSum := plainSum + 1;
      }
    }
  }

  /** decisions[t] stands for the hard decisions of iteration t.  The count
      returned is 0 exactly when some iteration converges. */
  method BPDecode(h: Checks, decisions: seq<Vec>) returns (minErrors: nat, plain: seq<bool>)
    requires CheckTable(h) && Matrix(decisions, N)
    ensures LowestSeen(h, decisions, minErrors)
    ensures minErrors == 0 ==> ByPropagation(h, decisions, plain)
    ensures minErrors == 0 ==> |plain| == N && Satisfies(h, plain)
    ensures minErrors != 0 ==> NeverConverges(h, decisions)
  {
    hide Satisfies, Violations, NeverConverges, ByPropagation, LowestSeen, Examined, Converges;
    minErrors, plain := M, [];
    for iter := 0 to |decisions|
      invariant 0 < minErrors <= M
      invariant Unfinished(h, decisions, iter) && LowestOf(h, decisions, iter, minErrors)
    {
      var plainSum;
      plain, plainSum := CopyCounting(decisions[iter]);
      if plainSum == 0 {
        SearchEnds(h, decisions, iter, minErrors);
        return;
      }
      var errors := LdpcCheck(h, plain);
      if errors < minErrors {
        minErrors := errors;
        if errors == 0 {
          SearchSucceeds(h, decisions, iter);
          return;
        }
      }
    }
    SearchEnds(h, decisions, |decisions|, minErrors);
  }

  // ---------- the decision ----------

  datatype Reason =
    | Clean
    | Osd
    | TypedMessage
    | OsdCrc(errors: nat)
    | Parity(errors: nat)
    | Crc(extracted: Vec, calculated: Vec)

  /** A codeword whose payload carries a matching checksum. */
  ghost predicate Sound(h: Checks, bits: Vec)
    requires CheckTable(h)
  {
    |bits| == N && Satisfies(h, bits) && CrcMatches(bits)
  }

  ghost predicate ByFallback(gen: seq<seq<bv8>>, llr: seq<real>, order: nat, bits: Vec)
    requires GeneratorTable(gen) && |llr| == N
  {
    exists basis: seq<nat> :: Decoded(gen, llr, order, basis, bits)
  }

  /** The fallback gives bits that fail the checksum, or the tables are not
      orthogonal and it may give none. */
  ghost predicate FallbackFailed(gen: seq<seq<bv8>>, h: Checks, llr: seq<real>, order: nat)
    requires GeneratorTable(gen) && CheckTable(h) && |llr| == N
  {
    !Orthogonal(gen, h) || exists bits: Vec :: ByFallback(gen, llr, order, bits) && |bits| == N && !CrcMatches(bits)
  }

  /** Belief propagation did not settle the candidate. */
  ghost predicate Unsettled(h: Checks, decisions: seq<Vec>)
    requires CheckTable(h) && Matrix(decisions, N)
  {
    NeverConverges(h, decisions) ||
    exists bits: Vec :: |bits| == N && ByPropagation(h, decisions, bits) && !CrcMatches(bits)
  }

  /** Everything an outcome says about the bits behind it. */
  ghost predicate Explained(gen: seq<seq<bv8>>, h: Checks, llr: seq<real>, decisions: seq<Vec>, order: nat,
                            unpack77: Vec -> string, msg: Option<string>, reason: Reason)
    requires GeneratorTable(gen) && CheckTable(h) && |llr| == N && Matrix(decisions, N)
  {
    match reason
    case Clean => exists bits: Vec ::
      ByPropagation(h, decisions, bits) && Sound(h, bits) && msg == Some(unpack77(bits[..PAYLOAD])) && msg.value != ""
    case Osd => Unsettled(h, decisions) && exists bits: Vec ::
      ByFallback(gen, llr, order, bits) && Sound(h, bits) && msg == Some(unpack77(bits[..PAYLOAD])) && msg.value != ""
    case TypedMessage => msg == None && exists bits: Vec ::
      (ByPropagation(h, decisions, bits) || (Unsettled(h, decisions) && ByFallback(gen, llr, order, bits)))
      && Sound(h, bits) && unpack77(bits[..PAYLOAD]) == ""
    case OsdCrc(errors) =>
      msg == None && errors > 0 && LowestSeen(h, decisions, errors) && NeverConverges(h, decisions) &&
      exists bits: Vec :: ByFallback(gen, llr, order, bits) && |bits| == N && !CrcMatches(bits)
    case Parity(errors) =>
      msg == None && errors > 0 && LowestSeen(h, decisions, errors) && NeverConverges(h, decisions) &&
      !Orthogonal(gen, h)
    case Crc(extracted, calculated) =>
      msg == None && extracted != calculated && FallbackFailed(gen, h, llr, order) && exists bits: Vec ::
      ByPropagation(h, decisions, bits) && |bits| == N
      && extracted == [false, false] + bits[PAYLOAD..K] && calculated == [false, false] + CrcOfPayload(bits[..PAYLOAD])
  }

  method DecodeCodeword(gen: seq<seq<bv8>>, h: Checks, llr: seq<real>, decisions: seq<Vec>, order: nat,
                        unpack77: Vec -> string) returns (msg: Option<string>, reason: Reason)
    requires GeneratorTable(gen) && CheckTable(h) && |llr| == N && Matrix(decisions, N)
    ensures Explained(gen, h, llr, decisions, order, unpack77, msg, reason)
  {
    hide Satisfies, Decoded, CrcOfPayload, Converges, ByPropagation, NeverConverges, LowestSeen;
    var errs, plain := BPDecode(h, decisions);
    if errs != 0 {
      var bits, basis := Ft8Osd.Decode(gen, h, llr, order);
      if bits == None {
        return None, Parity(errs);
      }
      assert ByFallback(gen, llr, order, bits.value);
      var ok := VerifyCrc(bits.value);
      if !ok {
        return None, OsdCrc(errs);
      }
      msg, reason := Report(bits.value, unpack77, Osd);
      return;
    }
    var clean := VerifyCrc(plain);
    if !clean {
      var bits, basis := Ft8Osd.Decode(gen, h, llr, order);
      if bits.Some? {
        assert ByFallback(gen, llr, order, bits.value);
        var ok := VerifyCrc(bits.value);
        if ok {
          msg, reason := Report(bits.value, unpack77, Osd);
          return;
        }
      }
      var extracted, calculated := CrcWords(plain);
      assert extracted[2..] == plain[PAYLOAD..K] && calculated[2..] == CrcOfPayload(plain[..PAYLOAD]);
      return None, Crc(extracted, calculated);
    }
    msg, reason := Report(plain, unpack77, Clean);
  }

  /** Checked bits become a message unless their payload unpacks to nothing. */
  method Report(bits: Vec, unpack77: Vec -> string, route: Reason) returns (msg: Option<string>, reason: Reason)
    requires |bits| == N
    ensures unpack77(bits[..PAYLOAD]) != "" ==> msg == Some(unpack77(bits[..PAYLOAD])) && reason == route
    ensures unpack77(bits[..PAYLOAD]) == "" ==> msg == None && reason == TypedMessage
  {
    var t := unpack77(bits[..PAYLOAD]);
    if t != "" {
      return Some(t), route;
    }
    return None, TypedMessage;
  }

  /** With the published tables orthogonal, a message is shown only for a sound
      codeword, which is the packed encoding of its own framed payload. */
  lemma MessageIsSound(gen: seq<seq<bv8>>, h: Checks, llr: seq<real>, decisions: seq<Vec>, order: nat,
                       unpack77: Vec -> string, msg: Option<string>, reason: Reason)
    requires GeneratorTable(gen) && CheckTable(h) && |llr| == N && Matrix(decisions, N)
    requires Explained(gen, h, llr, decisions, order, unpack77, msg, reason)
    ensures msg.Some? ==>
              exists bits: Vec :: Sound(h, bits) && msg.value == unpack77(bits[..PAYLOAD]) && msg.value != ""
    ensures msg.Some? <==> reason.Clean? || reason.Osd?
    ensures Orthogonal(gen, h) ==> !reason.Parity?
  {
    hide Sound, ByPropagation, ByFallback, Orthogonal, CrcMatches, CrcOfPayload, Unsettled;
  }

  /** A framed message whose every bit the LLRs have right is read even when
      belief propagation never converges on it. */
  lemma CleanSignalIsRead(gen: seq<seq<bv8>>, h: Checks, llr: seq<real>, decisions: seq<Vec>, order: nat,
                          unpack77: Vec -> string, msg: Option<string>, reason: Reason, c: Vec)
    requires GeneratorTable(gen) && CheckTable(h) && |llr| == N && Matrix(decisions, N) && Orthogonal(gen, h)
    requires Explained(gen, h, llr, decisions, order, unpack77, msg, reason) && NeverConverges(h, decisions)
    requires IsCodeword(gen, c) && SignsOf(llr, c) && CrcMatches(c) && unpack77(c[..PAYLOAD]) != ""
    ensures msg == Some(unpack77(c[..PAYLOAD])) && reason == Osd
  {
    hide Orthogonal, CrcMatches, CrcOfPayload, IsCodeword, SignsOf, Decoded, Satisfies, LowestSeen, Converges;
    forall bits: Vec | ByFallback(gen, llr, order, bits)
      ensures bits == c
    {
      var basis: seq<nat> :| Decoded(gen, llr, order, basis, bits);
      CleanComesBack(gen, llr, c, order, basis, bits);
    }
  }

  /** Packing a codeword's message and encoding it again gives the codeword. */
  lemma EncoderReproduces(gen: seq<seq<bv8>>, c: Vec, message: seq<bv8>, codeword: seq<bv8>)
    requires GeneratorTable(gen) && IsCodeword(gen, c) && |message| == 12 && |codeword| == 22
    requires forall p: nat :: p < 96 ==> BitAt(message, p) == (p < K && c[p])
    requires forall p: nat :: p < 8 * |codeword| ==>
      BitAt(codeword, p) == (Copied(message, p) || (K <= p < N && PackedParity(gen, message, p - K)))
    ensures Unpack(codeword, N) == c
  {
    hide BitAt, Copied, PackedParity;
    PackedEncoderAgrees(gen, message, codeword);
    assert Unpack(message, K) == c[..K];
  }
}
