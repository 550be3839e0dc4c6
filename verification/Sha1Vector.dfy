/**
 The first example of FIPS PUB 180-1 (Appendix A): the message "abc", the words
 of its schedule, the first word after every round, and its digest. It ties the
 definition to the numbers in the standard.
 */
module Sha1Vector {
  import opened Sha1Spec
  import opened Sha1

  /** "abc". */
  ghost function Message(): seq<Octet> {
    [0x61, 0x62, 0x63]
  }

  /** Word `t` of the schedule. */
  ghost function W(t: nat): Word {
    match t
    case 0 => 0x61626380 case 1 => 0x00000000 case 2 => 0x00000000 case 3 => 0x00000000
    case 4 => 0x00000000 case 5 => 0x00000000 case 6 => 0x00000000 case 7 => 0x00000000
    case 8 => 0x00000000 case 9 => 0x00000000 case 10 => 0x00000000 case 11 => 0x00000000
    case 12 => 0x00000000 case 13 => 0x00000000 case 14 => 0x00000000 case 15 => 0x00000018
    case 16 => 0xC2C4C700 case 17 => 0x00000000 case 18 => 0x00000030 case 19 => 0x85898E01
    case 20 => 0x00000000 case 21 => 0x00000060 case 22 => 0x0B131C03 case 23 => 0x00000030
    case 24 => 0x85898EC1 case 25 => 0x16263806 case 26 => 0x00000000 case 27 => 0x00000180
    case 28 => 0x2C4C700C case 29 => 0x000000F0 case 30 => 0x93AFB507 case 31 => 0x5898E048
    case 32 => 0x8E9A9202 case 33 => 0x00000600 case 34 => 0xB131C0F0 case 35 => 0x16263BC6
    case 36 => 0x4EBED41E case 37 => 0x626380A1 case 38 => 0x16263806 case 39 => 0x000018C0
    case 40 => 0xD2E138C4 case 41 => 0x00000F00 case 42 => 0x3AFB5079 case 43 => 0x898E04E5
    case 44 => 0xE2BA3C2B case 45 => 0x000060C0 case 46 => 0x053A37CD case 47 => 0x74458547
    case 48 => 0xDA9415ED case 49 => 0x26380A16 case 50 => 0x626383A1 case 51 => 0x4EBF54DE
    case 52 => 0x3835B44B case 53 => 0x0000F600 case 54 => 0x1E84C7A3 case 55 => 0x98E04D98
    case 56 => 0x651D16A0 case 57 => 0x62658CA1 case 58 => 0x458544D6 case 59 => 0x44584CB7
    case 60 => 0x7BA06619 case 61 => 0x6380AEA2 case 62 => 0x0AE55269 case 63 => 0x627B49A1
    case 64 => 0x7CD45C9D case 65 => 0x000F0000 case 66 => 0xFB50753A case 67 => 0xEC6765E8
    case 68 => 0xBA3C2BE2 case 69 => 0x0060C000 case 70 => 0x3A37CD05 case 71 => 0x458546F4
    case 72 => 0xB8599DD6 case 73 => 0x380A1A26 case 74 => 0x01E02203 case 75 => 0xE7CC3456
    case 76 => 0xE6E60B69 case 77 => 0x00F60A00 case 78 => 0x5795EF4F case 79 => 0x822E0879
    case _ => 0
  }

  /** The first word after `t` rounds. */
  ghost function A(t: nat): Word {
    match t
    case 0 => 0x67452301 case 1 => 0x0116FC33 case 2 => 0x8990536D case 3 => 0xA1390F08
    case 4 => 0xCDD8E11B case 5 => 0xCFD499DE case 6 => 0x3FC7CA40 case 7 => 0x993E30C1
    case 8 => 0x9E8C07D4 case 9 => 0x4B6AE328 case 10 => 0x8351F929 case 11 => 0xFBDA9E89
    case 12 => 0x63188FE4 case 13 => 0x4607B664 case 14 => 0x9128F695 case 15 => 0x196BEE77
    case 16 => 0x20BDD62F case 17 => 0x4E925823 case 18 => 0x82AA6728 case 19 => 0xDC64901D
    case 20 => 0xFD9E1D7D case 21 => 0x1A37B0CA case 22 => 0x33A23BFC case 23 => 0x21283486
    case 24 => 0xD541F12D case 25 => 0xC7567DC6 case 26 => 0x48413BA4 case 27 => 0xBE35FBD5
    case 28 => 0x4AA84D97 case 29 => 0x8370B52E case 30 => 0xC5FBAF5D case 31 => 0x1267B407
    case 32 => 0x3B845D33 case 33 => 0x046FAA0A case 34 => 0x2C0EBC11 case 35 => 0x21796AD4
    case 36 => 0xDCBBB0CB case 37 => 0x0F511FD8 case 38 => 0xDC63973F case 39 => 0x4C986405
    case 40 => 0x32DE1CBA case 41 => 0xFC87DEDF case 42 => 0x970A0D5C case 43 => 0x7F193DC5
    case 44 => 0xEE1B1AAF case 45 => 0x40F28E09 case 46 => 0x1C51E1F2 case 47 => 0xA01B846C
    case 48 => 0xBEAD02CA case 49 => 0xBAF39337 case 50 => 0x120731C5 case 51 => 0x641DB2CE
    case 52 => 0x3847AD66 case 53 => 0xE490436D case 54 => 0x27E9F1D8 case 55 => 0x7B71F76D
    case 56 => 0x5E6456AF case 57 => 0xC846093F case 58 => 0xD262FF50 case 59 => 0x09D785FD
    case 60 => 0x3F52DE5A case 61 => 0xD756C147 case 62 => 0x548C9CB2 case 63 => 0xB66C020B
    case 64 => 0x6B61C9E1 case 65 => 0x19DFA7AC case 66 => 0x101655F9 case 67 => 0x0C3DF2B4
    case 68 => 0x78DD4D2B case 69 => 0x497093C0 case 70 => 0x3F2588C2 case 71 => 0xC199F8C7
    case 72 => 0x39859DE7 case 73 => 0xEDB42DE4 case 74 => 0x11793F6F case 75 => 0x5EE76897
    case 76 => 0x63F7DAB7 case 77 => 0xA079B7D9 case 78 => 0x860D21CC case 79 => 0x5738D5E1
    case 80 => 0x42541B35
    case _ => 0
  }

  /** The five words after `t` rounds: all but the first are older first words. */
  ghost function State(t: nat): Digest {
    if t >= 4 then Digest(A(t), A(t - 1), Rotl30(A(t - 2)), Rotl30(A(t - 3)), Rotl30(A(t - 4)))
    else if t == 0 then Initial()
    else if t == 1 then Digest(A(1), A(0), 0x7BF36AE2, 0x98BADCFE, 0x10325476)
    else if t == 2 then Digest(A(2), A(1), 0x59D148C0, 0x7BF36AE2, 0x98BADCFE)
    else Digest(A(3), A(2), Rotl30(A(1)), 0x59D148C0, 0x7BF36AE2)
  }

  ghost predicate WordOk(t: nat)
    requires t >= 16
  {
    W(t) == Rotl1(W(t - 3) ^ W(t - 8) ^ W(t - 14) ^ W(t - 16))
  }

  ghost predicate RoundOk(t: nat)
    requires t < 80
  {
    Round(State(t), W(t), t) == State(t + 1)
  }

  /** The same as one equation between words. */
  ghost predicate MixOk(t: nat)
    requires 4 <= t < 80
  {
    A(t + 1) == Mix(A(t), F(t, A(t - 1), Rotl30(A(t - 2)), Rotl30(A(t - 3))), Rotl30(A(t - 4)), W(t), K(t))
  }

  lemma MixedRound(t: nat)
    requires 4 <= t < 80 && MixOk(t)
    ensures RoundOk(t)
  {
    hide A, W, Rotl30, F, K, Mix;
  }

  lemma Rounds0(t: nat)
    requires t < 4
    ensures RoundOk(t)
  {
    if t == 0 {} else if t == 1 {} else if t == 2 {} else {}
  }

  lemma Words16(t: nat)
    requires 16 <= t < 24
    ensures WordOk(t)
  {
    if t == 16 {} else if t == 17 {} else if t == 18 {} else if t == 19 {} else if t == 20 {} else if t == 21 {} else if t == 22 {} else {}
  }

  lemma Words24(t: nat)
    requires 24 <= t < 32
    ensures WordOk(t)
  {
    if t == 24 {} else if t == 25 {} else if t == 26 {} else if t == 27 {} else if t == 28 {} else if t == 29 {} else if t == 30 {} else {}
  }

  lemma Words32(t: nat)
    requires 32 <= t < 40
    ensures WordOk(t)
  {
    if t == 32 {} else if t == 33 {} else if t == 34 {} else if t == 35 {} else if t == 36 {} else if t == 37 {} else if t == 38 {} else {}
  }

  lemma Words40(t: nat)
    requires 40 <= t < 48
    ensures WordOk(t)
  {
    if t == 40 {} else if t == 41 {} else if t == 42 {} else if t == 43 {} else if t == 44 {} else if t == 45 {} else if t == 46 {} else {}
  }

  lemma Words48(t: nat)
    requires 48 <= t < 56
    ensures WordOk(t)
  {
    if t == 48 {} else if t == 49 {} else if t == 50 {} else if t == 51 {} else if t == 52 {} else if t == 53 {} else if t == 54 {} else {}
  }

  lemma Words56(t: nat)
    requires 56 <= t < 64
    ensures WordOk(t)
  {
    if t == 56 {} else if t == 57 {} else if t == 58 {} else if t == 59 {} else if t == 60 {} else if t == 61 {} else if t == 62 {} else {}
  }

  lemma Words64(t: nat)
    requires 64 <= t < 72
    ensures WordOk(t)
  {
    if t == 64 {} else if t == 65 {} else if t == 66 {} else if t == 67 {} else if t == 68 {} else if t == 69 {} else if t == 70 {} else {}
  }

  lemma Words72(t: nat)
    requires 72 <= t < 80
    ensures WordOk(t)
  {
    if t == 72 {} else if t == 73 {} else if t == 74 {} else if t == 75 {} else if t == 76 {} else if t == 77 {} else if t == 78 {} else {}
  }

  lemma Mixes4(t: nat)
    requires 4 <= t < 8
    ensures MixOk(t)
  {
    if t == 4 {} else if t == 5 {} else if t == 6 {} else {}
  }

  lemma Mixes8(t: nat)
    requires 8 <= t < 12
    ensures MixOk(t)
  {
    if t == 8 {} else if t == 9 {} else if t == 10 {} else {}
  }

  lemma Mixes12(t: nat)
    requires 12 <= t < 16
    ensures MixOk(t)
  {
    if t == 12 {} else if t == 13 {} else if t == 14 {} else {}
  }

  lemma Mixes16(t: nat)
    requires 16 <= t < 20
    ensures MixOk(t)
  {
    if t == 16 {} else if t == 17 {} else if t == 18 {} else {}
  }

  lemma Mixes20(t: nat)
    requires 20 <= t < 24
    ensures MixOk(t)
  {
    if t == 20 {} else if t == 21 {} else if t == 22 {} else {}
  }

  lemma Mixes24(t: nat)
    requires 24 <= t < 28
    ensures MixOk(t)
  {
    if t == 24 {} else if t == 25 {} else if t == 26 {} else {}
  }

  lemma Mixes28(t: nat)
    requires 28 <= t < 32
    ensures MixOk(t)
  {
    if t == 28 {} else if t == 29 {} else if t == 30 {} else {}
  }

  lemma Mixes32(t: nat)
    requires 32 <= t < 36
    ensures MixOk(t)
  {
    if t == 32 {} else if t == 33 {} else if t == 34 {} else {}
  }

  lemma Mixes36(t: nat)
    requires 36 <= t < 40
    ensures MixOk(t)
  {
    if t == 36 {} else if t == 37 {} else if t == 38 {} else {}
  }

  lemma Mixes40(t: nat)
    requires 40 <= t < 44
    ensures MixOk(t)
  {
    if t == 40 {} else if t == 41 {} else if t == 42 {} else {}
  }

  lemma Mixes44(t: nat)
    requires 44 <= t < 48
    ensures MixOk(t)
  {
    if t == 44 {} else if t == 45 {} else if t == 46 {} else {}
  }

  lemma Mixes48(t: nat)
    requires 48 <= t < 52
    ensures MixOk(t)
  {
    if t == 48 {} else if t == 49 {} else if t == 50 {} else {}
  }

  lemma Mixes52(t: nat)
    requires 52 <= t < 56
    ensures MixOk(t)
  {
    if t == 52 {} else if t == 53 {} else if t == 54 {} else {}
  }

  lemma Mixes56(t: nat)
    requires 56 <= t < 60
    ensures MixOk(t)
  {
    if t == 56 {} else if t == 57 {} else if t == 58 {} else {}
  }

  lemma Mixes60(t: nat)
    requires 60 <= t < 64
    ensures MixOk(t)
  {
    if t == 60 {} else if t == 61 {} else if t == 62 {} else {}
  }

  lemma Mixes64(t: nat)
    requires 64 <= t < 68
    ensures MixOk(t)
  {
    if t == 64 {} else if t == 65 {} else if t == 66 {} else {}
  }

  lemma Mixes68(t: nat)
    requires 68 <= t < 72
    ensures MixOk(t)
  {
    if t == 68 {} else if t == 69 {} else if t == 70 {} else {}
  }

  lemma Mixes72(t: nat)
    requires 72 <= t < 76
    ensures MixOk(t)
  {
    if t == 72 {} else if t == 73 {} else if t == 74 {} else {}
  }

  lemma Mixes76(t: nat)
    requires 76 <= t < 80
    ensures MixOk(t)
  {
    if t == 76 {} else if t == 77 {} else if t == 78 {} else {}
  }

  lemma WordsFollow(t: nat)
    requires 16 <= t < 80
    ensures WordOk(t)
  {
    hide WordOk;
    if t < 24 { Words16(t); } else if t < 32 { Words24(t); } else if t < 40 { Words32(t); } else if t < 48 { Words40(t); }
    else if t < 56 { Words48(t); } else if t < 64 { Words56(t); } else if t < 72 { Words64(t); } else { Words72(t); }
  }

  lemma MixesFollow(t: nat)
    requires 4 <= t < 80
    ensures MixOk(t)
  {
    hide MixOk;
    if t < 8 { Mixes4(t); } else if t < 12 { Mixes8(t); } else if t < 16 { Mixes12(t); } else if t < 20 { Mixes16(t); }
    else if t < 24 { Mixes20(t); } else if t < 28 { Mixes24(t); } else if t < 32 { Mixes28(t); } else if t < 36 { Mixes32(t); }
    else if t < 40 { Mixes36(t); } else if t < 44 { Mixes40(t); } else if t < 48 { Mixes44(t); } else if t < 52 { Mixes48(t); }
    else if t < 56 { Mixes52(t); } else if t < 60 { Mixes56(t); } else if t < 64 { Mixes60(t); } else if t < 68 { Mixes64(t); }
    else if t < 72 { Mixes68(t); } else if t < 76 { Mixes72(t); } else { Mixes76(t); }
  }

  lemma RoundsFollow(t: nat)
    requires t < 80
    ensures RoundOk(t)
  {
    hide RoundOk, MixOk;
    if t < 4 {
      Rounds0(t);
    } else {
      MixesFollow(t);
      MixedRound(t);
    }
  }

  ghost function Words(n: nat): (w: seq<Word>)
    ensures |w| == n && forall t :: 0 <= t < n ==> w[t] == W(t)
  {
    seq(n, t requires t >= 0 => W(t))
  }

  /** The one block of the padded message: the message, a one bit, zeros, and 24. */
  ghost predicate IsBlock(b: seq<Octet>) {
    && |b| == 64 && b[0] == 0x61 && b[1] == 0x62 && b[2] == 0x63 && b[3] == 0x80 && b[63] == 24
    && forall i :: 4 <= i < 63 ==> b[i] == 0
  }

  lemma PaddedBlock()
    ensures IsBlock(Pad(Message()))
  {
    hide LengthOctets;
    assert PadZeros(3) == 52;
    assert Pad(Message()) == Message() + [0x80] + Zeros(52) + LengthOctets(24);
    LengthOf24();
  }

  lemma LengthOf24()
    ensures LengthOctets(24) == [0, 0, 0, 0, 0, 0, 0, 24]
  {
    hide OctetOf;
    HighOctet(24, 0x100_0000_0000_0000);
    HighOctet(24, 0x1_0000_0000_0000);
    HighOctet(24, 0x100_0000_0000);
    HighOctet(24, 0x1_0000_0000);
    HighOctet(24, 0x100_0000);
    HighOctet(24, 0x1_0000);
    HighOctet(24, 0x100);
    LowOctet24();
  }

  lemma HighOctet(bits: nat, unit: nat)
    requires bits < unit
    ensures OctetOf(bits, unit) == 0
  {
    assert bits / unit == 0;
  }

  lemma LowOctet24()
    ensures OctetOf(24, 1) == 24
  {
  }

  lemma FirstWords(b: seq<Octet>, t: nat)
    requires IsBlock(b) && t < 16
    ensures WordOf(b[4 * t], b[4 * t + 1], b[4 * t + 2], b[4 * t + 3]) == W(t)
  {
    if t == 0 {} else if t == 15 {} else {
      assert b[4 * t] == 0 && b[4 * t + 1] == 0 && b[4 * t + 2] == 0 && b[4 * t + 3] == 0;
      NoWord(t);
    }
  }

  lemma NoWord(t: nat)
    requires 1 <= t < 15
    ensures W(t) == 0 && WordOf(0, 0, 0, 0) == 0
  {
    if t == 1 {} else if t == 2 {} else if t == 3 {} else if t == 4 {} else if t == 5 {} else if t == 6 {} else if t == 7 {}
    else if t == 8 {} else if t == 9 {} else if t == 10 {} else if t == 11 {} else if t == 12 {} else if t == 13 {} else {}
  }

  lemma {:induction false} ScheduleIsWords(b: seq<Octet>, n: nat)
    requires IsBlock(b) && n <= 80
    ensures Schedule(b, n) == Words(n)
  {
    hide W, WordOf, Rotl1, Schedule;
    if n == 0 {
      NoSchedule(b);
    } else {
      var t, w := n - 1, Words(n);
      ScheduleIsWords(b, t);
      assert w[..t] == Words(t);
      if t < 16 {
        FirstWords(b, t);
      } else {
        WordsFollow(t);
      }
      ScheduleStep(b, t, w);
    }
  }

  lemma NoSchedule(b: seq<Octet>)
    requires |b| == 64
    ensures Schedule(b, 0) == []
  {
  }

  lemma {:induction false} RoundsAreStates(n: nat)
    requires n <= 80
    ensures Rounds(Initial(), Words(n)) == State(n)
  {
    hide W, Round, State, Rounds;
    if n == 0 {
      NoRounds();
    } else {
      var t, w := n - 1, Words(n);
      RoundsAreStates(t);
      RoundsFollow(t);
      assert w[..t] == Words(t) && w[..t + 1] == w;
      RoundsStep(Initial(), w, t);
    }
  }

  lemma NoRounds()
    ensures Words(0) == [] && Rounds(Initial(), Words(0)) == State(0)
  {
  }

  /** The digest of "abc" is the one the standard gives. */
  lemma Example()
    ensures Hash(Message()) == Digest(0xA9993E36, 0x4706816A, 0xBA3E2571, 0x7850C26C, 0x9CD0D89D)
  {
    hide Pad, Schedule, Rounds, Absorb, W;
    var b := Pad(Message());
    PaddedBlock();
    AbsorbOne(Initial(), b);
    ScheduleIsWords(b, 80);
    RoundsAreStates(80);
    LastState();
  }

  lemma LastState()
    ensures AddDigests(Initial(), State(80)) == Digest(0xA9993E36, 0x4706816A, 0xBA3E2571, 0x7850C26C, 0x9CD0D89D)
  {
    hide Rotl30, A, AddDigests;
    LastWords();
    Rotated();
    Added();
  }

  lemma LastWords()
    ensures A(80) == 0x42541B35 && A(79) == 0x5738D5E1 && A(78) == 0x860D21CC && A(77) == 0xA079B7D9 && A(76) == 0x63F7DAB7
  {
    hide A;
    LastWord(80);
    LastWord(79);
    LastWord(78);
    LastWord(77);
    LastWord(76);
  }

  lemma LastWord(t: nat)
    requires 76 <= t <= 80
    ensures A(t) == if t == 80 then 0x42541B35 else if t == 79 then 0x5738D5E1 else if t == 78 then 0x860D21CC else if t == 77 then 0xA079B7D9 else 0x63F7DAB7
  {
    if t == 76 {} else if t == 77 {} else if t == 78 {} else if t == 79 {} else {}
  }

  lemma Rotated()
    ensures Rotl30(0x860D21CC) == 0x21834873 && Rotl30(0xA079B7D9) == 0x681E6DF6 && Rotl30(0x63F7DAB7) == 0xD8FDF6AD
  {
  }

  lemma Added()
    ensures AddDigests(Initial(), Digest(0x42541B35, 0x5738D5E1, 0x21834873, 0x681E6DF6, 0xD8FDF6AD)) ==
            Digest(0xA9993E36, 0x4706816A, 0xBA3E2571, 0x7850C26C, 0x9CD0D89D)
  {
  }
}
