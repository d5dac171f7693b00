/** A UI frame from its fields, over the tones, back to its fields. */
module AprsLink {
  import opened Gf2
  import opened Octets
  import opened Options
  import opened Ax25
  import opened Hdlc
  import opened HdlcLink

  /** With one to six digipeaters and room for the information field, the newest
      frame any deframer holds after the transmission reads back field for field. */
  lemma BeaconReceived(s: Rx, src: Station, dest: Station, digis: seq<Station>, info: seq<byte>,
                       preambleFlags: nat, tone: bool, last: bool, first: bool)
    requires Valid(s) && preambleFlags >= 2
    requires ValidStation(src) && ValidStation(dest) && ValidStations(digis) && 1 <= |digis| <= 6
    requires 7 * (|digis| + 2) + 2 + |info| <= 328
    ensures var body := Encoded(Show(src), Show(dest), ShowAll(digis), info);
            var t := Run(s, Heard(body, preambleFlags, tone, last, first));
            t.frames != [] && Decoded(t.frames[|t.frames| - 1]) == Some(UiFrame(src, dest, digis, info))
  {
    hide Decoded, Encoded, Show, Run, Heard, Valid;
    var body := Encoded(Show(src), Show(dest), ShowAll(digis), info);
    TailOfBody(Show(src), Show(dest), ShowAll(digis), info);
    ReceivedOverTones(s, body, preambleFlags, tone, last, first);
    RoundTripOneToSix(src, dest, digis, info);
  }

  // ---------- several beacons ----------

  datatype Beacon = Beacon(src: Station, dest: Station, digis: seq<Station>, info: seq<byte>)

  ghost predicate Sendable(b: Beacon) {
    ValidStation(b.src) && ValidStation(b.dest) && ValidStations(b.digis) && 1 <= |b.digis| <= 6 &&
    7 * (|b.digis| + 2) + 2 + |b.info| <= 328
  }

  ghost predicate AllSendable(bs: seq<Beacon>) {
    forall i :: 0 <= i < |bs| ==> Sendable(bs[i])
  }

  ghost function BodyOf(b: Beacon): (body: seq<byte>)
    requires Sendable(b)
  {
    Encoded(Show(b.src), Show(b.dest), ShowAll(b.digis), b.info)
  }

  ghost function Bodies(bs: seq<Beacon>): (bodies: seq<seq<byte>>)
    requires AllSendable(bs)
    ensures |bodies| == |bs|
  {
    seq(|bs|, i requires 0 <= i < |bs| => BodyOf(bs[i]))
  }

  lemma BodyFits(b: Beacon)
    requires Sendable(b)
    ensures 15 <= |BodyOf(b)| <= 328 && Decoded(BodyOf(b)) == Some(UiFrame(b.src, b.dest, b.digis, b.info))
  {
    hide Decoded, Encoded, Show;
    TailOfBody(Show(b.src), Show(b.dest), ShowAll(b.digis), b.info);
    RoundTripOneToSix(b.src, b.dest, b.digis, b.info);
  }

  lemma {:induction false} AllAdmitted(bodies: seq<seq<byte>>)
    requires forall i :: 0 <= i < |bodies| ==> 15 <= |bodies[i]| <= 328
    ensures Admitted(bodies) == bodies
  {
    if bodies == [] {
    } else {
      AllAdmitted(bodies[..|bodies| - 1]);
    }
  }

  lemma BodiesAdmitted(bs: seq<Beacon>)
    requires AllSendable(bs)
    ensures Admitted(Bodies(bs)) == Bodies(bs)
  {
    hide BodyOf, Admitted;
    forall i | 0 <= i < |bs|
      ensures 15 <= |Bodies(bs)[i]| <= 328
    {
      BodyFits(bs[i]);
    }
    AllAdmitted(Bodies(bs));
  }

  lemma NewestEnd(base: seq<seq<byte>>, bodies: seq<seq<byte>>, j: nat)
    requires j < |bodies| && j < 17
    ensures var q := Newest(base + bodies); j < |q| && q[|q| - 1 - j] == bodies[|bodies| - 1 - j]
  {}

  /** Counted from the newest, frame j reads back as beacon j, field for field. */
  ghost predicate ReadsBack(frames: seq<seq<byte>>, bs: seq<Beacon>, j: nat)
    requires AllSendable(bs) && j < |bs|
  {
    var b := bs[|bs| - 1 - j];
    j < |frames| && Decoded(frames[|frames| - 1 - j]) == Some(UiFrame(b.src, b.dest, b.digis, b.info))
  }

  /** Of beacons sent one after the other the last 17 are all there, in order. */
  lemma BeaconsReceived(s: Rx, bs: seq<Beacon>, flags: seq<nat>, tone: bool, last: bool, first: bool, j: nat)
    requires Valid(s) && AllSendable(bs) && |flags| == |bs| > 0 && Flagged(flags)
    requires j < |bs| && j < 17
    ensures var bits := FLAG + Transmissions(Bodies(bs), flags);
            ReadsBack(Run(s, HeardBits(bits, tone, last, first)).frames, bs, j)
  {
    hide *;
    var bits := FLAG + Transmissions(Bodies(bs), flags);
    AllReceivedOverTones(s, Bodies(bs), flags, tone, last, first);
    EndReadsBack(Run(s, HeardBits(bits, tone, last, first)).frames,
                 Run(Run(s, FirstFlag(first)), Flags(flags[0])).frames, bs, j);
  }

  lemma EndReadsBack(frames: seq<seq<byte>>, base: seq<seq<byte>>, bs: seq<Beacon>, j: nat)
    requires AllSendable(bs) && frames == Newest(base + Admitted(Bodies(bs))) && j < |bs| && j < 17
    ensures ReadsBack(frames, bs, j)
  {
    hide Decoded, BodyOf, Newest, UiFrame, Admitted;
    BodiesAdmitted(bs);
    NewestEnd(base, Bodies(bs), j);
    BodyFits(bs[|bs| - 1 - j]);
  }
}
