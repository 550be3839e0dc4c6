/**
 The streaming SHA-1 of `sha1.c`: a context with a 64-octet buffer, a bit count
 split over two 32-bit words, and two sticky flags. Every method is proved
 against the abstract value `(consumed, computed, corrupted)` of the context,
 and the digest it finally holds against the one-shot definition.
 */
module Sha1 {
  import opened Sha1Spec

  const WORD: int := 0x1_0000_0000

  // ---------------------------------------------------------------------
  // The abstract context
  // ---------------------------------------------------------------------

  /** What a context stands for: the octets taken in since the last reset, and
      whether a result was delivered or an error met. */
  datatype Stream = Stream(consumed: seq<Octet>, computed: bool, corrupted: bool) {

    ghost predicate Sound() {
      && |consumed| <= LIMIT
      && (|consumed| == LIMIT ==> corrupted && !computed)
      && (corrupted ==> computed || |consumed| == LIMIT)
    }

    /** `SHA1Input`: refused after a result or an error, cut off at 2^64 bits. */
    ghost function Input(s: seq<Octet>): Stream
      requires |consumed| <= LIMIT
    {
      if s == [] then this
      else if computed || corrupted then this.(corrupted := true)
      else if |consumed| + |s| < LIMIT then this.(consumed := consumed + s)
      else Stream(consumed + s[..LIMIT - |consumed|], false, true)
    }

    /** `SHA1Result`. */
    ghost function Result(): Stream {
      if corrupted then this else this.(computed := true)
    }

    /** The digest words: the standard's hash once computed, else the
        compression of the whole blocks so far. */
    ghost function Words(): Digest
      requires Sound()
    {
      if computed then Hash(consumed) else Running(consumed)
    }
  }

  ghost function Fresh(): Stream {
    Stream([], false, false)
  }

  // ---------------------------------------------------------------------
  // Blocks done and octets left over
  // ---------------------------------------------------------------------

  ghost function Whole(n: nat): (r: nat)
    ensures r <= n < r + 64 && r % 64 == 0
  {
    n - n % 64
  }

  /** The compression of the whole blocks of `c`. */
  ghost function Running(c: seq<Octet>): Digest {
    Absorb(Initial(), c[..Whole(|c|)])
  }

  /** The octets after the last whole block. */
  ghost function Tail(c: seq<Octet>): (t: seq<Octet>)
    ensures |t| == |c| % 64
  {
    c[Whole(|c|)..]
  }

  lemma WholeStep(n: nat)
    ensures n % 64 < 63 ==> Whole(n + 1) == Whole(n)
    ensures n % 64 == 63 ==> Whole(n + 1) == n + 1 == Whole(n) + 64
  {
  }

  lemma RunningStep(c: seq<Octet>, o: Octet)
    ensures |Tail(c)| < 63 ==> Running(c + [o]) == Running(c) && Tail(c + [o]) == Tail(c) + [o]
    ensures |Tail(c)| == 63 ==>
              Running(c + [o]) == Compress(Running(c), Tail(c) + [o]) && Tail(c + [o]) == []
  {
    hide Compress;
    var d, w := c + [o], Whole(|c|);
    WholeStep(|c|);
    assert d[..w] == c[..w];
    assert d[w..] == Tail(c) + [o];
    if |Tail(c)| == 63 {
      assert d[..|d|] == d;
    }
  }

  lemma PadLayout(c: seq<Octet>, q: seq<Octet>)
    requires |c| < LIMIT
    requires q == Tail(c) + [0x80] + Zeros(PadZeros(|c|)) + LengthOctets(8 * |c|)
    ensures Pad(c) == c[..Whole(|c|)] + q && |q| % 64 == 0
  {
    PadZerosFit(|c|);
    assert c == c[..Whole(|c|)] + Tail(c);
  }

  /** One block finishes a message whose left-over octets leave room. */
  lemma HashShortTail(c: seq<Octet>)
    requires |c| < LIMIT && |Tail(c)| <= 55
    ensures Hash(c) == Compress(Running(c),
                         Tail(c) + [0x80] + Zeros(55 - |Tail(c)|) + LengthOctets(8 * |c|))
  {
    hide Compress;
    var q := Tail(c) + [0x80] + Zeros(55 - |Tail(c)|) + LengthOctets(8 * |c|);
    PadZerosFit(|c|);
    PadLayout(c, q);
    AbsorbJoins(Initial(), c[..Whole(|c|)], q);
    AbsorbOne(Running(c), q);
  }

  /** Otherwise the length goes into a second block of its own. */
  lemma HashLongTail(c: seq<Octet>)
    requires |c| < LIMIT && |Tail(c)| > 55
    ensures Hash(c) == Compress(Compress(Running(c), Tail(c) + [0x80] + Zeros(63 - |Tail(c)|)),
                                Zeros(56) + LengthOctets(8 * |c|))
  {
    hide Compress;
    hide Absorb, LengthOctets, Tail, Pad;
    var a, b := Tail(c) + [0x80] + Zeros(63 - |Tail(c)|), Zeros(56) + LengthOctets(8 * |c|);
    PadZerosFit(|c|);
    assert Zeros(PadZeros(|c|)) == Zeros(63 - |Tail(c)|) + Zeros(56);
    assert a + b == Tail(c) + [0x80] + Zeros(PadZeros(|c|)) + LengthOctets(8 * |c|);
    PadLayout(c, a + b);
    AbsorbJoins(Initial(), c[..Whole(|c|)], a + b);
    AbsorbJoins(Running(c), a, b);
    AbsorbOne(Running(c), a);
    AbsorbOne(Compress(Running(c), a), b);
  }

  // ---------------------------------------------------------------------
  // The context as the source holds it
  // ---------------------------------------------------------------------

  class Context {
    const digest: array<Word>
    const block: array<Octet>
    var lengthLow: int
    var lengthHigh: int
    var index: int
    var computed: bool
    var corrupted: bool
    ghost var consumed: seq<Octet>

    ghost predicate Shape()
      reads this, digest, block
    {
      digest.Length == 5 && block.Length == 64
    }

    /** The counters describe `n` octets, whatever the block holds. */
    ghost predicate Counted(n: nat)
      reads this
    {
      && 0 <= lengthLow < WORD && 0 <= lengthHigh < WORD
      && lengthHigh * WORD + lengthLow == if n == LIMIT then 0 else 8 * n
    }

    ghost function Value(): Stream
      reads this
    {
      Stream(consumed, computed, corrupted)
    }

    ghost function Held(): Digest
      requires Shape()
      reads this, digest, block
    {
      Digest(digest[0], digest[1], digest[2], digest[3], digest[4])
    }

    ghost predicate Valid()
      reads this, digest, block
    {
      && Shape()
      && Value().Sound()
      && Counted(|consumed|)
      && Held() == Value().Words()
      && (!computed ==> 0 <= index < 64 && block[..index] == Tail(consumed))
      && (computed ==> index == 0)
    }

    constructor ()
      ensures Valid() && Value() == Fresh()
      ensures fresh(digest) && fresh(block)
    {
      digest := new Word[5];
      block := new Octet[64];
      lengthLow, lengthHigh, index := 0, 0, 0;
      computed, corrupted := false, false;
      consumed := [];
      new;
      Reset();
    }

    /** `SHA1Reset`. */
    method Reset()
      requires Shape()
      modifies this, digest
      ensures Valid() && Value() == Fresh()
    {
      lengthLow, lengthHigh, index := 0, 0, 0;
      digest[0], digest[1], digest[2], digest[3], digest[4] :=
        0x67452301, 0xEFCDAB89, 0x98BADCFE, 0x10325476, 0xC3D2E1F0;
      computed, corrupted := false, false;
      consumed := [];
    }

    /** The octets of word `t`, joined by the shifts of the first schedule loop. */
    method LoadWord(t: nat) returns (w: Word)
      requires Shape() && t < 16
      ensures w == WordOf(block[4 * t], block[4 * t + 1], block[4 * t + 2], block[4 * t + 3])
    {
      w := (block[t * 4] as Word) << 24;
      w := w | ((block[t * 4 + 1] as Word) << 16);
      w := w | ((block[t * 4 + 2] as Word) << 8);
      w := w | (block[t * 4 + 3] as Word);
    }

    /** The schedule loops of `SHA1ProcessMessageBlock`. */
    method FillSchedule() returns (ws: seq<Word>)
      requires Shape()
      ensures |ws| == 80 && ws == Schedule(block[..], |block[..]| + 16)
    {
      var w := new Word[80];
      ghost var b := block[..];
      for t := 0 to 16
        invariant w[..t] == Schedule(b, t)
      {
        w[t] := LoadWord(t);
        ScheduleStep(b, t, w[..t + 1]);
      }
      for t := 16 to 80
        invariant w[..t] == Schedule(b, t)
      {
        w[t] := Rotl1(w[t - 3] ^ w[t - 8] ^ w[t - 14] ^ w[t - 16]);
        ScheduleStep(b, t, w[..t + 1]);
      }
      ws := w[..];
      assert w[..] == w[..80];
    }

    /** `SHA1ProcessMessageBlock`: one compression, and the buffer is empty. */
    method ProcessMessageBlock()
      requires Shape()
      modifies this`index, digest
      ensures Shape() && index == 0
      ensures Held() == Compress(old(Held()), block[..])
    {
      var w := FillSchedule();
      var s := AllRounds(w, Digest(digest[0], digest[1], digest[2], digest[3], digest[4]));
      digest[0], digest[1], digest[2], digest[3], digest[4] := s.h0, s.h1, s.h2, s.h3, s.h4;
      index := 0;
    }

    /** The bit count of `SHA1Input`, with its carry and overflow flag. */
    method CountOctet(ghost n: nat)
      requires n < LIMIT && Counted(n) && !corrupted
      modifies this`lengthLow, this`lengthHigh, this`corrupted
      ensures Counted(n + 1) && corrupted == (n + 1 == LIMIT)
    {
      CountStep(lengthLow, lengthHigh, n);
      lengthLow := (lengthLow + 8) % WORD;
      if lengthLow == 0 {
        lengthHigh := (lengthHigh + 1) % WORD;
        if lengthHigh == 0 {
          corrupted := true;
        }
      }
    }

    /** One turn of the loop of `SHA1Input`. */
    method InputOctet(o: Octet)
      requires Valid() && !computed && !corrupted
      modifies this, digest, block
      ensures Valid() && consumed == old(consumed) + [o]
      ensures !computed && corrupted == (|consumed| == LIMIT)
    {
      hide Compress, Absorb, Running, Tail, Hash;
      RunningStep(consumed, o);
      block[index] := o;
      index := index + 1;
      assert block[..index] == Tail(consumed) + [o];
      CountOctet(|consumed|);
      consumed := consumed + [o];
      if index == 64 {
        assert block[..64] == block[..];
        ProcessMessageBlock();
      }
    }

    /** `SHA1Input`. */
    method Input(s: seq<Octet>)
      requires Valid()
      modifies this, digest, block
      ensures Valid() && Value() == old(Value()).Input(s)
    {
      hide Compress, Absorb, Running, Tail, Hash;
      if |s| == 0 {
        return;
      }
      if computed || corrupted {
        corrupted := true;
        return;
      }
      var i := 0;
      while i < |s| && !corrupted
        invariant 0 <= i <= |s| && Valid() && !computed
        invariant consumed == old(consumed) + s[..i]
        invariant corrupted == (|consumed| == LIMIT)
      {
        InputOctet(s[i]);
        i := i + 1;
      }
      assert s[..|s|] == s;
    }

    /** Each padding loop of `SHA1PadMessage`. */
    method ZeroTo(limit: nat)
      requires Shape() && 0 <= index <= limit <= 64
      modifies this`index, block
      ensures index == limit
      ensures block[..limit] == old(block[..index]) + Zeros(limit - old(index))
    {
      ghost var start := index;
      while index < limit
        invariant start <= index <= limit
        invariant block[..index] == old(block[..index]) + Zeros(index - start)
      {
        block[index] := 0;
        index := index + 1;
        assert block[..index] == block[..index - 1] + [0];
        assert Zeros(index - start) == Zeros(index - 1 - start) + [0];
      }
    }

    /** The one bit, which always fits, and the zeros after it. */
    method MarkAndZeroTo(limit: nat)
      requires Shape() && 0 <= index < limit <= 64
      modifies this`index, block
      ensures index == limit
      ensures block[..limit] == old(block[..index]) + [0x80] + Zeros(limit - old(index) - 1)
    {
      block[index] := 0x80;
      index := index + 1;
      assert block[..index] == old(block[..index]) + [0x80];
      ZeroTo(limit);
    }

    /** The last eight octets of the last block. */
    method StoreLength(ghost n: nat)
      requires Shape() && n < LIMIT && Counted(n)
      modifies block
      ensures Shape() && block[..] == old(block[..56]) + LengthOctets(8 * n)
    {
      hide LengthOctets, CountOctets;
      LengthParts(lengthHigh, lengthLow, n);
      ghost var head := block[..56];
      var l := CountOctets(lengthHigh, lengthLow);
      block[56], block[57], block[58], block[59] := l[0], l[1], l[2], l[3];
      block[60], block[61], block[62], block[63] := l[4], l[5], l[6], l[7];
      assert block[..56] == head;
      assert block[56..] == l;
      assert block[..] == block[..56] + block[56..];
    }

    /** `SHA1PadMessage`: the digest becomes the hash of everything consumed. */
    method PadMessage()
      requires Valid() && !computed && !corrupted
      modifies this`index, digest, block
      ensures Shape() && index == 0 && Held() == Hash(consumed)
    {
      hide Compress, Absorb, Running, Tail, Hash, LengthOctets;
      if index > 55 {
        HashLongTail(consumed);
        MarkAndZeroTo(64);
        assert block[..64] == block[..];
        ProcessMessageBlock();
        ZeroTo(56);
        assert block[..56] == Zeros(56);
      } else {
        HashShortTail(consumed);
        MarkAndZeroTo(56);
      }
      StoreLength(|consumed|);
      ProcessMessageBlock();
    }

    /** `SHA1Result`: refuses exactly a corrupted context, and otherwise leaves
        the standard's hash of the whole message in the digest. */
    method Result() returns (ok: bool)
      requires Valid()
      modifies this, digest, block
      ensures Valid() && Value() == old(Value()).Result()
      ensures ok == !old(corrupted)
      ensures ok ==> Held() == Hash(consumed)
    {
      hide Compress, Absorb, Running, Tail, Hash;
      if corrupted {
        return false;
      }
      if !computed {
        PadMessage();
        computed := true;
      }
      return true;
    }
  }

  /** The four round loops and the final additions. */
  method AllRounds(w: seq<Word>, h: Digest) returns (s: Digest)
    requires |w| == 80
    ensures s == AddDigests(h, Rounds(h, w))
  {
    assert w[..0] == [] && w[..80] == w;
    s := Stage1(w, h, h);
    s := Stage2(w, h, s);
    s := Stage3(w, h, s);
    s := Stage4(w, h, s);
    s := AddDigests(h, s);
  }

  /** The body of the loop over t = 0 .. 19. */
  method Step1(s: Digest, w: Word, ghost t: nat) returns (r: Digest)
    requires 0 <= t < 20
    ensures r == Round(s, w, t)
  {
    r := Digest(Mix(s.h0, ((s.h1 & s.h2) | (!s.h1 & s.h3)), s.h4, w, 0x5A827999), s.h0, Rotl30(s.h1), s.h2, s.h3);
  }

  method Stage1(w: seq<Word>, ghost h: Digest, start: Digest) returns (s: Digest)
    requires |w| == 80 && start == Rounds(h, w[..0])
    ensures s == Rounds(h, w[..20])
  {
    s := start;
    for t := 0 to 20
      invariant s == Rounds(h, w[..t])
    {
      RoundsStep(h, w, t);
      s := Step1(s, w[t], t);
    }
  }

  /** The body of the loop over t = 20 .. 39. */
  method Step2(s: Digest, w: Word, ghost t: nat) returns (r: Digest)
    requires 20 <= t < 40
    ensures r == Round(s, w, t)
  {
    r := Digest(Mix(s.h0, (s.h1 ^ s.h2 ^ s.h3), s.h4, w, 0x6ED9EBA1), s.h0, Rotl30(s.h1), s.h2, s.h3);
  }

  method Stage2(w: seq<Word>, ghost h: Digest, start: Digest) returns (s: Digest)
    requires |w| == 80 && start == Rounds(h, w[..20])
    ensures s == Rounds(h, w[..40])
  {
    s := start;
    for t := 20 to 40
      invariant s == Rounds(h, w[..t])
    {
      RoundsStep(h, w, t);
      s := Step2(s, w[t], t);
    }
  }

  /** The body of the loop over t = 40 .. 59. */
  method Step3(s: Digest, w: Word, ghost t: nat) returns (r: Digest)
    requires 40 <= t < 60
    ensures r == Round(s, w, t)
  {
    r := Digest(Mix(s.h0, ((s.h1 & s.h2) | (s.h1 & s.h3) | (s.h2 & s.h3)), s.h4, w, 0x8F1BBCDC), s.h0, Rotl30(s.h1), s.h2, s.h3);
  }

  method Stage3(w: seq<Word>, ghost h: Digest, start: Digest) returns (s: Digest)
    requires |w| == 80 && start == Rounds(h, w[..40])
    ensures s == Rounds(h, w[..60])
  {
    s := start;
    for t := 40 to 60
      invariant s == Rounds(h, w[..t])
    {
      RoundsStep(h, w, t);
      s := Step3(s, w[t], t);
    }
  }

  /** The body of the loop over t = 60 .. 79. */
  method Step4(s: Digest, w: Word, ghost t: nat) returns (r: Digest)
    requires 60 <= t < 80
    ensures r == Round(s, w, t)
  {
    r := Digest(Mix(s.h0, (s.h1 ^ s.h2 ^ s.h3), s.h4, w, 0xCA62C1D6), s.h0, Rotl30(s.h1), s.h2, s.h3);
  }

  method Stage4(w: seq<Word>, ghost h: Digest, start: Digest) returns (s: Digest)
    requires |w| == 80 && start == Rounds(h, w[..60])
    ensures s == Rounds(h, w[..80])
  {
    s := start;
    for t := 60 to 80
      invariant s == Rounds(h, w[..t])
    {
      RoundsStep(h, w, t);
      s := Step4(s, w[t], t);
    }
  }

  lemma RoundsStep(h: Digest, w: seq<Word>, t: nat)
    requires t < |w| <= 80
    ensures Rounds(h, w[..t + 1]) == Round(Rounds(h, w[..t]), w[t], t)
  {
    assert w[..t + 1][..t] == w[..t];
  }

  lemma ScheduleStep(block: seq<Octet>, t: nat, w: seq<Word>)
    requires |block| == 64 && t < 80 && |w| == t + 1 && w[..t] == Schedule(block, t)
    requires t < 16 ==> w[t] == WordOf(block[4 * t], block[4 * t + 1], block[4 * t + 2], block[4 * t + 3])
    requires t >= 16 ==> w[t] == Rotl1(w[t - 3] ^ w[t - 8] ^ w[t - 14] ^ w[t - 16])
    ensures w == Schedule(block, t + 1)
  {
    assert w == w[..t] + [w[t]];
  }

  // ---------------------------------------------------------------------
  // Whole runs of a context
  // ---------------------------------------------------------------------

  datatype Op = DoInput(s: seq<Octet>) | DoResult | DoReset

  /** What a sequence of calls leaves behind, starting from a fresh context. */
  ghost function Run(ops: seq<Op>): (st: Stream)
    ensures st.Sound()
  {
    if ops == [] then Fresh()
    else
      var st := Run(ops[..|ops| - 1]);
      match ops[|ops| - 1]
      case DoInput(s) => st.Input(s)
      case DoResult => st.Result()
      case DoReset => Fresh()
  }

  /** Every octet offered to the context, accepted or not. */
  ghost function Offered(ops: seq<Op>): seq<Octet> {
    if ops == [] then []
    else
      var last := ops[|ops| - 1];
      Offered(ops[..|ops| - 1]) + if last.DoInput? then last.s else []
  }

  /** Call `i` is non-empty input that follows a result or reaches 2^64 bits. */
  ghost predicate Overruns(ops: seq<Op>, i: nat) {
    && i < |ops| && ops[i].DoInput? && ops[i].s != []
    && (DoResult in ops[..i] || |Offered(ops[..i + 1])| >= LIMIT)
  }

  /** Between resets the error flag is up exactly when some call overran. */
  lemma {:induction false} CorruptedExactly(ops: seq<Op>)
    requires DoReset !in ops
    ensures Run(ops).corrupted <==> exists i: nat :: Overruns(ops, i)
    ensures !Run(ops).corrupted ==>
              (Run(ops).computed <==> DoResult in ops) && Run(ops).consumed == Offered(ops)
  {
    hide Offered;
    if ops == [] {
      NothingOffered();
    } else {
      var n, before := |ops| - 1, ops[..|ops| - 1];
      CorruptedExactly(before);
      forall i: nat | i < n
        ensures Overruns(ops, i) <==> Overruns(before, i)
      {
        OverrunsBefore(ops, i);
      }
      LastOverruns(ops);
      if Run(before).corrupted {
        var i: nat :| Overruns(before, i);
        assert Overruns(ops, i);
      } else if Run(ops).corrupted {
        assert Overruns(ops, n);
      }
    }
  }

  /** One call on a context. */
  method Perform(context: Context, op: Op) returns (ok: bool)
    requires context.Valid()
    modifies context, context.digest, context.block
    ensures context.Valid()
    ensures context.Value() == match op
      case DoInput(s) => old(context.Value()).Input(s)
      case DoResult => old(context.Value()).Result()
      case DoReset => Fresh()
    ensures op == DoResult ==> (ok <==> !context.corrupted) && (ok ==> context.Held() == Hash(context.consumed))
  {
    hide Hash, Absorb, Running, Tail, Compress;
    ok := true;
    match op {
      case DoInput(s) => context.Input(s);
      case DoResult => ok := context.Result();
      case DoReset => context.Reset();
    }
  }

  /** Any sequence of calls on a real context leaves behind what the stream says:
      between resets the error flag is up exactly when some call overran, and a
      result that is given is the hash of everything consumed. */
  method PerformAll(ops: seq<Op>) returns (context: Context, ok: bool)
    ensures context.Valid() && context.Value() == Run(ops)
    ensures DoReset !in ops ==> (context.corrupted <==> exists i: nat :: Overruns(ops, i))
    ensures ops != [] && ops[|ops| - 1] == DoResult ==>
              (ok <==> !context.corrupted) && (ok ==> context.Held() == Hash(context.consumed))
  {
    hide Overruns, Hash, Absorb, Running, Tail, Compress, Run;
    context := new Context();
    ok := false;
    RunUnfolds([]);
    assert ops[..0] == [];
    for i := 0 to |ops|
      invariant context.Valid() && context.Value() == Run(ops[..i])
      invariant fresh(context) && fresh(context.digest) && fresh(context.block)
      invariant i > 0 && ops[i - 1] == DoResult ==>
                  (ok <==> !context.corrupted) && (ok ==> context.Held() == Hash(context.consumed))
    {
      RunUnfolds(ops[..i + 1]);
      assert ops[..i + 1][..i] == ops[..i];
      ok := Perform(context, ops[i]);
    }
    assert ops[..|ops|] == ops;
    if DoReset !in ops {
      CorruptedExactly(ops);
    }
  }

  lemma RunUnfolds(ops: seq<Op>)
    ensures ops == [] ==> Run(ops) == Fresh()
    ensures ops != [] ==>
              var before := Run(ops[..|ops| - 1]);
              Run(ops) == match ops[|ops| - 1]
                case DoInput(s) => before.Input(s)
                case DoResult => before.Result()
                case DoReset => Fresh()
  {
  }

  lemma NothingOffered()
    ensures Offered([]) == [] && forall i: nat :: !Overruns([], i)
  {
  }

  lemma OverrunsBefore(ops: seq<Op>, i: nat)
    requires i < |ops| - 1
    ensures Overruns(ops, i) <==> Overruns(ops[..|ops| - 1], i)
  {
    hide Offered;
    var before := ops[..|ops| - 1];
    assert ops[..i] == before[..i] && ops[..i + 1] == before[..i + 1];
  }

  /** The last call overruns exactly when it raises the flag, if it was down. */
  lemma LastOverruns(ops: seq<Op>)
    requires ops != [] && DoReset !in ops
    requires var before := ops[..|ops| - 1];
             !Run(before).corrupted ==>
               (Run(before).computed <==> DoResult in before) && Run(before).consumed == Offered(before)
    ensures var before := ops[..|ops| - 1];
            if Run(before).corrupted then Run(ops).corrupted
            else
              && (Run(ops).corrupted <==> Overruns(ops, |ops| - 1))
              && (!Run(ops).corrupted ==>
                    (Run(ops).computed <==> DoResult in ops) && Run(ops).consumed == Offered(ops))
  {
    hide Run;
    var n, before := |ops| - 1, ops[..|ops| - 1];
    RunUnfolds(ops);
    assert ops[..n + 1] == ops && ops == before + [ops[n]];
  }

  ghost function Joined(pieces: seq<seq<Octet>>): seq<Octet> {
    if pieces == [] then [] else Joined(pieces[..|pieces| - 1]) + pieces[|pieces| - 1]
  }

  /** Two inputs in a row are one input of both. */
  lemma InputsJoin(st: Stream, s: seq<Octet>, t: seq<Octet>)
    requires st.Sound()
    ensures st.Input(s).Sound() && st.Input(s).Input(t) == st.Input(s + t)
  {
    if s != [] && t != [] && !st.computed && !st.corrupted {
      var c := st.consumed;
      if |c| + |s| < LIMIT {
        assert c + s + t == c + (s + t);
        if |c| + |s| + |t| >= LIMIT {
          assert (s + t)[..LIMIT - |c|] == s + t[..LIMIT - |c| - |s|];
        }
      } else {
        assert (s + t)[..LIMIT - |c|] == s[..LIMIT - |c|];
      }
    } else if s == [] {
      assert s + t == t;
    } else if t == [] {
      assert s + t == s;
    }
  }

  /** Reset, any number of inputs, result: the digest is the standard's hash of
      the joined pieces, however they were cut, for every message under 2^64
      bits, and no digest is delivered for any other. */
  method HashInPieces(pieces: seq<seq<Octet>>) returns (ok: bool, d: Digest)
    ensures ok == (|Joined(pieces)| < LIMIT)
    ensures ok ==> d == Hash(Joined(pieces))
  {
    hide Hash, Absorb, Running, Tail, Compress;
    var ctx := new Context();
    for i := 0 to |pieces|
      invariant fresh(ctx) && fresh(ctx.digest) && fresh(ctx.block)
      invariant ctx.Valid() && ctx.Value() == Fresh().Input(Joined(pieces[..i]))
    {
      InputsJoin(Fresh(), Joined(pieces[..i]), pieces[i]);
      assert pieces[..i + 1][..i] == pieces[..i];
      ctx.Input(pieces[i]);
    }
    assert pieces[..|pieces|] == pieces;
    assert [] + Joined(pieces) == Joined(pieces);
    ok := ctx.Result();
    d := Digest(ctx.digest[0], ctx.digest[1], ctx.digest[2], ctx.digest[3], ctx.digest[4]);
  }

  // ---------------------------------------------------------------------
  // Counter arithmetic
  // ---------------------------------------------------------------------

  /** One `+= 8` with its carry advances the 64-bit count, which is zero again
      exactly at 2^64 bits. */
  lemma CountStep(low: int, high: int, n: nat)
    requires 0 <= low < WORD && 0 <= high < WORD
    requires high * WORD + low == 8 * n && n < LIMIT
    ensures var low' := (low + 8) % WORD;
            var high' := if low' == 0 then (high + 1) % WORD else high;
            && high' * WORD + low' == (if n + 1 == LIMIT then 0 else 8 * (n + 1))
            && ((low' == 0 && high' == 0) <==> n + 1 == LIMIT)
  {
    assert low % 8 == 0;
  }

  /** The eight shift-and-mask expressions of `SHA1PadMessage`. */
  function CountOctets(high: int, low: int): (r: seq<Octet>)
    ensures |r| == 8
  {
    [ (high / 0x100_0000 % 0x100) as Octet, (high / 0x1_0000 % 0x100) as Octet,
      (high / 0x100 % 0x100) as Octet, (high % 0x100) as Octet,
      (low / 0x100_0000 % 0x100) as Octet, (low / 0x1_0000 % 0x100) as Octet,
      (low / 0x100 % 0x100) as Octet, (low % 0x100) as Octet ]
  }

  lemma HighParts(high: int, low: int)
    requires 0 <= low < WORD && 0 <= high < WORD
    ensures var bits := high * WORD + low;
            && bits / 0x100_0000_0000_0000 == high / 0x100_0000
            && bits / 0x1_0000_0000_0000 == high / 0x1_0000
            && bits / 0x100_0000_0000 == high / 0x100
            && bits / 0x1_0000_0000 == high
  {
  }

  lemma LowParts(high: int, low: int)
    requires 0 <= low < WORD && 0 <= high < WORD
    ensures var bits := high * WORD + low;
            && bits / 0x100_0000 == high * 0x100 + low / 0x100_0000
            && bits / 0x1_0000 == high * 0x1_0000 + low / 0x1_0000
            && bits / 0x100 == high * 0x100_0000 + low / 0x100
  {
  }

  lemma LowOctet(a: int, b: int, c: int)
    requires a == 0x100 * c + b
    ensures a % 0x100 == b % 0x100
  {
  }

  /** Cutting the two halves is cutting the whole count. */
  lemma CountParts(high: int, low: int, bits: int)
    requires 0 <= low < WORD && 0 <= high < WORD && high * WORD + low == bits
    ensures bits / 0x100_0000_0000_0000 == high / 0x100_0000
    ensures bits / 0x1_0000_0000_0000 == high / 0x1_0000
    ensures bits / 0x100_0000_0000 == high / 0x100
    ensures bits / 0x1_0000_0000 == high
    ensures bits / 0x100_0000 % 0x100 == low / 0x100_0000 % 0x100
    ensures bits / 0x1_0000 % 0x100 == low / 0x1_0000 % 0x100
    ensures bits / 0x100 % 0x100 == low / 0x100 % 0x100
    ensures bits % 0x100 == low % 0x100
  {
    HighParts(high, low);
    LowParts(high, low);
    LowOctet(bits / 0x100_0000, low / 0x100_0000, high);
    LowOctet(bits / 0x1_0000, low / 0x1_0000, high * 0x100);
    LowOctet(bits / 0x100, low / 0x100, high * 0x1_0000);
    LowOctet(bits, low, high * 0x100_0000);
  }

  lemma LengthParts(high: int, low: int, n: nat)
    requires 0 <= low < WORD && 0 <= high < WORD && n < LIMIT
    requires high * WORD + low == 8 * n
    ensures LengthOctets(8 * n) == CountOctets(high, low)
  {
    CountParts(high, low, 8 * n);
  }
}
