/** What the receive parser makes of corrupted encodings. */
module StpCorruption {
  import opened Bytes
  import opened StpCrc
  import opened StpDetection
  import opened StpFrame
  import StpPeriod
  import opened StpReceiver

  /** `received` has the length of the encoding of `f` and is not it. */
  ghost predicate Changed(f: Frame, received: seq<byte>) {
    WellFormed(f) && |received| == |Encoded(f)| && received != Encoded(f)
  }

  /** The start octet and the length it declares are still those of `f`. */
  ghost predicate KeepsShape(f: Frame, received: seq<byte>) {
    |received| >= 7 && received[0] == SOF && DeclaredLength(received[2], received[3]) == |f.payload|
  }

  ghost predicate Rejected(run: Run, received: seq<byte>) {
    var done := Feed(run, received);
    done.frames == run.frames && done.rx.state.WaitSof? && done.rx.crcErrors == run.rx.crcErrors + 1
  }

  /** A changed encoding that keeps its shape is surfaced or rejected according to
      whether what the CRC protects is still a codeword. */
  lemma CorruptionVerdict(run: Run, f: Frame, received: seq<byte>)
    requires run.rx.state.WaitSof? && Changed(f, received) && KeepsShape(f, received)
    ensures Codeword(Octets(Protected(Encoded(f))))
    ensures Codeword(Octets(Protected(received))) ==> Feed(run, received).frames == run.frames + [received]
    ensures !Codeword(Octets(Protected(received))) ==> Rejected(run, received)
  {
    EncodedIsIntact(f);
    CrcMatchesExactly(Encoded(f));
    CrcMatchesExactly(received);
    FramedVerdict(run, received);
  }

  lemma {:induction false} FramesAccumulate(run: Run, input: seq<byte>)
    ensures Feed(run, input).rx == Feed(Run(run.rx, []), input).rx
    ensures Feed(run, input).frames == run.frames + Feed(Run(run.rx, []), input).frames
    decreases |input|
  {
    if input != [] {
      FramesAccumulate(run, input[..|input| - 1]);
    }
  }

  // Only octets that keep the shape are ever surfaced whole.
  lemma WholeKeepsShape(run: Run, f: Frame, received: seq<byte>)
    requires run.rx.state.WaitSof? && Changed(f, received) && Feed(run, received).frames == run.frames + [received]
    ensures KeepsShape(f, received)
  {
    FramesAccumulate(run, received);
    SurfacedIsGenuine(run.rx, received);
    var frames := Feed(Run(run.rx, []), received).frames;
    assert (run.frames + frames)[|run.frames|..] == frames && (run.frames + [received])[|run.frames|..] == [received];
    assert received in frames;
    EncodedIsIntact(f);
    LengthRoundTrip(f.header);
  }

  /** A change of one protected octet or of two adjacent ones, the length octets among
      them, is never surfaced; if the declared length stays what it was, it is counted
      as one CRC error, whatever the frame length. */
  lemma AdjacentCorruptionRejected(run: Run, f: Frame, received: seq<byte>, k: nat)
    requires run.rx.state.WaitSof? && Changed(f, received) && Protected(received) != Protected(Encoded(f))
    requires forall j :: 0 <= j < |Protected(received)| && j != k && j != k + 1
                         ==> Protected(received)[j] == Protected(Encoded(f))[j]
    ensures Feed(run, received).frames != run.frames + [received]
    ensures KeepsShape(f, received) ==> Rejected(run, received)
  {
    if KeepsShape(f, received) {
      CorruptionVerdict(run, f, received);
      var sent, got := Protected(Encoded(f)), Protected(received);
      OctetsDiffer(sent, got);
      AdjacentOctetsDetected(Octets(sent), Octets(got), k);
    } else if Feed(run, received).frames == run.frames + [received] {
      WholeKeepsShape(run, f, received);
    }
  }

  lemma OctetsDiffer(s: seq<byte>, t: seq<byte>)
    requires |s| == |t| && s != t
    ensures Octets(s) != Octets(t)
  {
    var i :| 0 <= i < |s| && s[i] != t[i];
    if ToOctet(s[i]) == ToOctet(t[i]) {
      ToOctetInjective(s[i], t[i]);
    }
    assert Octets(s)[i] != Octets(t)[i];
  }

  /** In particular any change of one payload octet or of two adjacent ones is rejected
      and counted once. */
  lemma PayloadCorruptionRejected(run: Run, f: Frame, received: seq<byte>, k: nat)
    requires run.rx.state.WaitSof? && Changed(f, received) && 5 <= k
    requires forall j :: 0 <= j < |received| && !(k <= j <= k + 1 && j < 5 + |f.payload|) ==> received[j] == Encoded(f)[j]
    ensures Rejected(run, received)
  {
    var sent := Encoded(f);
    LengthRoundTrip(f.header);
    ShapeKept(f, received);
    forall j | 0 <= j < |sent| - 2 && j != k - 2 && j != k - 1 ensures Protected(received)[j] == Protected(sent)[j] {
      ProtectedAt(received, j);
      ProtectedAt(sent, j);
    }
    assert Protected(received) != Protected(sent) by {
      var j :| 0 <= j < |sent| && received[j] != sent[j];
      ProtectedAt(received, j - 2);
      ProtectedAt(sent, j - 2);
    }
    AdjacentCorruptionRejected(run, f, received, k - 2);
  }

  lemma ShapeKept(f: Frame, received: seq<byte>)
    requires WellFormed(f) && |received| == |Encoded(f)|
    requires received[0] == Encoded(f)[0] && received[2] == Encoded(f)[2] && received[3] == Encoded(f)[3]
    ensures KeepsShape(f, received)
  {
    LengthRoundTrip(f.header);
    var h := HeaderOctets(f.header);
    assert Encoded(f)[2] == h[1] && Encoded(f)[3] == h[2];
  }

  /** So is any burst of at most sixteen protected bits and any odd number of them. */
  lemma BitCorruptionRejected(run: Run, f: Frame, received: seq<byte>, at: nat, length: nat)
    requires run.rx.state.WaitSof? && Changed(f, received)
    requires var error := ErrorBits(Octets(Protected(Encoded(f))), Octets(Protected(received)));
             Burst(error, at, length) || Parity(error)
    ensures Feed(run, received).frames != run.frames + [received]
    ensures KeepsShape(f, received) ==> Rejected(run, received)
  {
    if KeepsShape(f, received) {
      CorruptionVerdict(run, f, received);
      var sent, got := Octets(Protected(Encoded(f))), Octets(Protected(received));
      if Parity(ErrorBits(sent, got)) {
        OddErrorsDetected(sent, got);
      } else {
        BurstsDetected(sent, got, at, length);
      }
    } else if Feed(run, received).frames == run.frames + [received] {
      WholeKeepsShape(run, f, received);
    }
  }

  /** Two flipped protected bits that keep the shape slip through exactly when they are
      32767 apart, and are otherwise rejected. */
  lemma TwoBitsSlipThroughExactly(run: Run, f: Frame, received: seq<byte>, i: nat, j: nat)
    requires run.rx.state.WaitSof? && Changed(f, received) && KeepsShape(f, received)
    requires StpPeriod.TwoBits(ErrorBits(Octets(Protected(Encoded(f))), Octets(Protected(received))), i, j)
    ensures Feed(run, received).frames == run.frames + [received] <==> j - i == 32767
    ensures j - i != 32767 ==> Rejected(run, received)
  {
    CorruptionVerdict(run, f, received);
    var sent, got := Octets(Protected(Encoded(f))), Octets(Protected(received));
    StpPeriod.TwoBitErrorsExactly(sent, got, i, j);
    ErrorBitsAt(sent, got, 0);
    OnePeriod(j - i);
  }

  // No encoding is two periods long.
  lemma OnePeriod(d: nat)
    requires 0 < d < 2 * 32767
    ensures d % 32767 == 0 <==> d == 32767
  {
  }

  /** A single changed octet is surfaced, in place of what was sent, exactly when it is
      the header checksum: the CRC leaves that octet out and the receiver never compares
      it. Any other that keeps the shape is rejected. */
  lemma OneOctetSlipsThroughExactly(run: Run, f: Frame, received: seq<byte>, k: nat)
    requires run.rx.state.WaitSof? && Changed(f, received)
    requires k < |received| && forall j :: 0 <= j < |received| && j != k ==> received[j] == Encoded(f)[j]
    ensures Feed(run, received).frames == run.frames + [received] <==> k == 4
    ensures k != 4 && KeepsShape(f, received) ==> Rejected(run, received)
    ensures k == 1 || k >= 5 ==> Rejected(run, received)
  {
    if k == 1 || k >= 4 {
      ShapeKept(f, received);
    }
    if k == 0 {
      assert Encoded(f)[0] == SOF && !KeepsShape(f, received);
      if Feed(run, received).frames == run.frames + [received] {
        WholeKeepsShape(run, f, received);
      }
    } else {
      ProtectedChange(Encoded(f), received, k);
      if k != 4 {
        AdjacentCorruptionRejected(run, f, received, if k < 4 then k - 1 else k - 2);
      } else {
        CorruptionVerdict(run, f, received);
      }
    }
  }

  // ---- When the shape changes ----

  /** What an idle parser makes of octets whose start octet stands but whose length may
      be anything: the frame they declare is surfaced or counted by its own CRC and the
      rest is parsed afresh, or more octets are awaited and nothing is surfaced yet. */
  lemma DeclaredLengthVerdict(run: Run, received: seq<byte>)
    requires run.rx.state.WaitSof? && |received| >= 7 && received[0] == SOF
    ensures var n := 7 + DeclaredLength(received[2], received[3]);
            if n <= |received| then
              Framed(received[..n]) && Feed(run, received) == Feed(Outcome(run, received[..n]), received[n..])
            else
              var done := Feed(run, received);
              done.frames == run.frames && !done.rx.state.WaitSof? && done.rx.crcErrors == run.rx.crcErrors
  {
    var n := 7 + DeclaredLength(received[2], received[3]);
    if n <= |received| {
      DeclaredFits(run, received, n);
    } else {
      AwaitsMore(run, received, n);
    }
  }

  lemma DeclaredFits(run: Run, received: seq<byte>, n: nat)
    requires run.rx.state.WaitSof? && 7 <= n <= |received| && received[0] == SOF
    requires n == 7 + DeclaredLength(received[2], received[3])
    ensures Framed(received[..n]) && Feed(run, received) == Feed(Outcome(run, received[..n]), received[n..])
  {
    var w := received[..n];
    assert w[0] == SOF && w[2] == received[2] && w[3] == received[3];
    assert received == w + received[n..];
    FramedPrefix(run, w, received[n..]);
  }

  lemma FramedPrefix(run: Run, w: seq<byte>, rest: seq<byte>)
    requires run.rx.state.WaitSof? && Framed(w)
    ensures Feed(run, w + rest) == Feed(Outcome(run, w), rest)
  {
    FramedVerdict(run, w);
    FeedConcat(run, w, rest);
  }

  lemma AwaitsMore(run: Run, received: seq<byte>, n: nat)
    requires run.rx.state.WaitSof? && 7 <= |received| < n && received[0] == SOF
    requires n == 7 + DeclaredLength(received[2], received[3])
    ensures var done := Feed(run, received);
            done.frames == run.frames && !done.rx.state.WaitSof? && done.rx.crcErrors == run.rx.crcErrors
  {
    var w := received + seq(n - |received|, _ => 0);
    assert w[..|received|] == received;
    AfterPrefix(run, w, |received|);
  }

  /** Without its start octet an encoding is parsed from its second octet on. */
  lemma LostStart(run: Run, received: seq<byte>)
    requires run.rx.state.WaitSof? && received != [] && received[0] != SOF
    ensures Feed(run, received) == Feed(run, received[1..])
  {
    assert received == [received[0]] + received[1..];
    FeedConcat(run, [received[0]], received[1..]);
    FillerIsSkipped(run, [received[0]]);
  }

  /** A frame of two payload octets that happen to be the CRC of the same header with
      length zero: when its third header octet loses the length, a frame that nobody sent
      is surfaced after seven octets, with no CRC error. */
  lemma ShortenedFrameSlips(run: Run, sequence: byte) returns (f: Frame, received: seq<byte>)
    requires run.rx.state.WaitSof?
    ensures WellFormed(f) && |f.payload| == 2 && received == Encoded(f)[3 := 0] && received != Encoded(f)
    ensures var done := Feed(run, received[..7]);
            done.frames == run.frames + [received[..7]] && done.rx.crcErrors == run.rx.crcErrors
  {
    var empty := Header(Data, false, sequence % 8, 0, 0);
    var payload := CrcOctets(FrameCrc(empty, []));
    f := DataFrame(sequence, payload);
    BuiltFramesAreWellFormed(sequence, payload);
    received := Encoded(f)[3 := 0];
    ShortenedIsIntact(f, empty);
    FramedVerdict(run, received[..7]);
  }

  lemma ShortenedIsIntact(f: Frame, empty: Header)
    requires |f.payload| == 2 && f.payload == CrcOctets(FrameCrc(empty, [])) && empty.length == 0
    requires empty.(length := 2, checksum := f.header.checksum) == f.header
    ensures |Encoded(f)| == 9 && Encoded(f)[3] == 16
    ensures var w := Encoded(f)[3 := 0][..7]; Framed(w) && CrcMatches(w)
  {
    var sent, h, g := Encoded(f), HeaderOctets(f.header), HeaderOctets(empty);
    assert h[0] == g[0] && h[1] == g[1] && h[2] == 16 && g[2] == 0;
    assert sent[0] == SOF && sent[1] == h[0] && sent[2] == h[1] && sent[3] == h[2];
    assert sent[5] == f.payload[0] && sent[6] == f.payload[1];
    var w := sent[3 := 0][..7];
    assert w[1..4] == g && w[5..7] == f.payload;
    EmptyFrameIsIntact(w, empty);
  }

  lemma EmptyFrameIsIntact(w: seq<byte>, h: Header)
    requires |w| == 7 && w[0] == SOF && h.length == 0 && w[1..4] == HeaderOctets(h)
    requires w[5..7] == CrcOctets(FrameCrc(h, []))
    ensures Framed(w) && CrcMatches(w)
  {
    assert w[2] == w[1..4][1] && w[3] == w[1..4][2];
    LengthRoundTrip(h);
    EmptyFrameMatches(w, HeaderOctets(h), FrameCrc(h, []));
  }

  lemma EmptyFrameMatches(w: seq<byte>, h: seq<byte>, crc: Word)
    requires |w| == 7 && |h| == 3 && w[1..4] == h && w[5..7] == CrcOctets(crc) && crc == Crc(CRC_INIT, Octets(h + []))
    ensures CrcMatches(w)
  {
    assert w[5] == w[5..7][0] && w[6] == w[5..7][1];
    CrcSpelt(crc);
    assert w[1..4] + w[5..|w| - 2] == h + [];
  }

  lemma CrcSpelt(crc: Word)
    ensures ToOctet(CrcOctets(crc)[1]) + ToOctet(CrcOctets(crc)[0]) == crc
  {
    ToFromOctet(crc[8..]);
    ToFromOctet(crc[..8]);
    assert crc[..8] + crc[8..] == crc;
  }

  // The octet with bit i flipped.
  ghost function Flip(b: byte, i: nat): byte
    requires i < 8
  {
    FromOctet(ToOctet(b)[i := !ToOctet(b)[i]])
  }

  /** Every frame of at least 4091 payload octets has such a pair of bits: the first
      protected bit and the one 32767 after it. */
  lemma LongFrameSlips(run: Run, f: Frame) returns (received: seq<byte>)
    requires run.rx.state.WaitSof? && WellFormed(f) && |f.payload| >= 4091
    ensures received == Encoded(f)[1 := Flip(Encoded(f)[1], 7)][4097 := Flip(Encoded(f)[4097], 0)]
    ensures received != Encoded(f) && Feed(run, received).frames == run.frames + [received]
  {
    var w := Encoded(f);
    received := w[1 := Flip(w[1], 7)][4097 := Flip(w[4097], 0)];
    FlipDiffers(w[1], 7);
    assert received[1] != w[1];
    ShapeKept(f, received);
    FlippedPair(w, received);
    TwoBitsSlipThroughExactly(run, f, received, 0, 32767);
  }

  lemma FlippedPair(w: seq<byte>, received: seq<byte>)
    requires |w| >= 4098 && received == w[1 := Flip(w[1], 7)][4097 := Flip(w[4097], 0)]
    ensures StpPeriod.TwoBits(ErrorBits(Octets(Protected(w)), Octets(Protected(received))), 0, 32767)
  {
    var s, t := Octets(Protected(w)), Octets(Protected(received));
    var error := ErrorBits(s, t);
    ErrorBitsAt(s, t, 0);
    forall k | 0 <= k < |error| ensures error[k] == (k == 0 || k == 32767) {
      ErrorBitsAt(s, t, k);
      FlippedBit(w, received, k / 8, 7 - k % 8);
    }
  }

  lemma FlipDiffers(b: byte, i: nat)
    requires i < 8
    ensures ToOctet(Flip(b, i)) == ToOctet(b)[i := !ToOctet(b)[i]] && Flip(b, i) != b
  {
    ToFromOctet(ToOctet(b)[i := !ToOctet(b)[i]]);
  }

  lemma FlippedBit(w: seq<byte>, received: seq<byte>, m: nat, x: nat)
    requires |w| >= 4098 && x < 8 && m < |w| - 2
    requires received == w[1 := Flip(w[1], 7)][4097 := Flip(w[4097], 0)]
    ensures ToOctet(Protected(w)[m])[x] != ToOctet(Protected(received)[m])[x] <==> (m == 0 && x == 7) || (m == 4095 && x == 0)
  {
    ProtectedAt(w, m);
    ProtectedAt(received, m);
    FlipDiffers(w[1], 7);
    FlipDiffers(w[4097], 0);
  }

  lemma ProtectedAt(w: seq<byte>, j: nat)
    requires |w| >= 7 && j < |w| - 2
    ensures Protected(w)[j] == w[if j < 3 then j + 1 else j + 2]
  {
  }

  // Where a change of octet k shows among the protected octets.
  lemma ProtectedChange(sent: seq<byte>, received: seq<byte>, k: nat)
    requires |sent| == |received| >= 7 && 1 <= k < |sent|
    requires forall j :: 0 <= j < |sent| && j != k ==> received[j] == sent[j]
    requires received[k] != sent[k]
    ensures k == 4 ==> Protected(received) == Protected(sent)
    ensures k != 4 ==>
              var m := if k < 4 then k - 1 else k - 2;
              && Protected(received)[m] != Protected(sent)[m]
              && forall j :: 0 <= j < |sent| - 2 && j != m ==> Protected(received)[j] == Protected(sent)[j]
  {
    forall w: seq<byte>, j: nat | |w| == |sent| && j < |w| - 2
      ensures Protected(w)[j] == w[if j < 3 then j + 1 else j + 2]
    {
      ProtectedAt(w, j);
    }
  }
}
