/** Base64 as Python's `base64.b64encode` and `base64.b64decode` implement it: the
    encoder is the padded encoding of section 4 of RFC 4648; the decoder is the
    non-strict `binascii.a2b_base64` state machine, which skips characters outside the
    alphabet, stops at the first complete padding, and rejects input that ends in the
    middle of a quantum. A `str` argument must be ASCII. */
module Base64 {
  import opened Common

  /** The value of each character of the alphabet of RFC 4648, section 4, table 1. */
  function EncodeValue(v: nat): (ch: char)
    requires v < 64
  {
    if v < 26 then ('A' as int + v) as char
    else if v < 52 then ('a' as int + (v - 26)) as char
    else if v < 62 then ('0' as int + (v - 52)) as char
    else if v == 62 then '+'
    else '/'
  }

  /** The decoding table: the value of an alphabet character, `None` for every other
      character (the pad '=' included). */
  function DecodeChar(ch: char): (r: Option<nat>)
    ensures r.Some? ==> r.value < 64 && EncodeValue(r.value) == ch
  {
    if 'A' <= ch <= 'Z' then Some(ch as int - 'A' as int)
    else if 'a' <= ch <= 'z' then Some(ch as int - 'a' as int + 26)
    else if '0' <= ch <= '9' then Some(ch as int - '0' as int + 52)
    else if ch == '+' then Some(62)
    else if ch == '/' then Some(63)
    else None
  }

  /** Every value's character decodes back to the value; no value's character is the
      pad or a comma. */
  lemma DecodeEncodeValue(v: nat)
    requires v < 64
    ensures DecodeChar(EncodeValue(v)) == Some(v)
    ensures EncodeValue(v) != '=' && EncodeValue(v) != ','
  {
  }

  /** Three bytes as four characters. */
  function Quantum(b0: uint8, b1: uint8, b2: uint8): string
  {
    [EncodeValue(b0 / 4), EncodeValue(b0 % 4 * 16 + b1 / 16), EncodeValue(b1 % 16 * 4 + b2 / 64), EncodeValue(b2 % 64)]
  }

  /** A final two bytes: three characters and one pad. */
  function FinalTwo(b0: uint8, b1: uint8): string
  {
    [EncodeValue(b0 / 4), EncodeValue(b0 % 4 * 16 + b1 / 16), EncodeValue(b1 % 16 * 4), '=']
  }

  /** A final single byte: two characters and two pads. */
  function FinalOne(b0: uint8): string
  {
    [EncodeValue(b0 / 4), EncodeValue(b0 % 4 * 16), '=', '=']
  }

  /** `base64.b64encode`. */
  function Encode(b: seq<uint8>): (s: string)
    decreases |b|
  {
    if |b| == 0 then []
    else if |b| == 1 then FinalOne(b[0])
    else if |b| == 2 then FinalTwo(b[0], b[1])
    else Quantum(b[0], b[1], b[2]) + Encode(b[3..])
  }

  /** `ch` is an alphabet character or the pad. */
  predicate Encoded(ch: char)
  {
    ch == '=' || DecodeChar(ch).Some?
  }

  /** Each group's characters are alphabet characters or pads. */
  lemma GroupsEncoded(b0: uint8, b1: uint8, b2: uint8)
    ensures forall i :: 0 <= i < 4 ==> Encoded(Quantum(b0, b1, b2)[i])
    ensures forall i :: 0 <= i < 4 ==> Encoded(FinalTwo(b0, b1)[i])
    ensures forall i :: 0 <= i < 4 ==> Encoded(FinalOne(b0)[i])
  {
    DecodeEncodeValue(b0 / 4);
    DecodeEncodeValue(b0 % 4 * 16 + b1 / 16);
    DecodeEncodeValue(b1 % 16 * 4 + b2 / 64);
    DecodeEncodeValue(b2 % 64);
    DecodeEncodeValue(b1 % 16 * 4);
    DecodeEncodeValue(b0 % 4 * 16);
  }

  /** The encoding has four characters per started group of three bytes, each one an
      alphabet character or the pad, and so never a comma. */
  lemma EncodeShape(b: seq<uint8>)
    ensures |Encode(b)| == (|b| + 2) / 3 * 4
    ensures forall i :: 0 <= i < |Encode(b)| ==> Encoded(Encode(b)[i])
    ensures ',' !in Encode(b)
  {
    EncodeLength(b);
    EncodeAlphabet(b);
    assert !Encoded(',');
  }

  lemma {:induction false} EncodeLength(b: seq<uint8>)
    ensures |Encode(b)| == (|b| + 2) / 3 * 4
    decreases |b|
  {
    if |b| >= 3 {
      EncodeLength(b[3..]);
      var n := |b[3..]|;
      assert (n + 3 + 2) / 3 == (n + 2) / 3 + 1;
    }
  }

  lemma {:induction false} EncodeAlphabet(b: seq<uint8>)
    ensures forall i :: 0 <= i < |Encode(b)| ==> Encoded(Encode(b)[i])
    decreases |b|
  {
    var s := Encode(b);
    if |b| >= 3 {
      EncodeAlphabet(b[3..]);
      var q, rest := Quantum(b[0], b[1], b[2]), Encode(b[3..]);
      assert s == q + rest;
      GroupsEncoded(b[0], b[1], b[2]);
      forall i | 0 <= i < |s| ensures Encoded(s[i]) {
        if i < 4 { assert s[i] == q[i]; } else { assert s[i] == rest[i - 4]; }
      }
    } else if |b| == 2 {
      GroupsEncoded(b[0], b[1], 0);
    } else if |b| == 1 {
      GroupsEncoded(b[0], 0, 0);
    }
  }

  // ---------------------------------------------------------------- decoding

  /** Why decoding fails: a non-ASCII `str`, one data character too many after the
      last complete quantum (with the count the message reports), or missing padding. */
  datatype DecodeError = NonAscii | DataCharCount(count: nat) | IncorrectPadding

  /** The decoder's registers: the position within the current quantum, the bits left
      over from the previous character, the pads seen, and the bytes written so far. */
  datatype DecodeState = DecodeState(quadPos: nat, leftChar: nat, pads: nat, out: seq<uint8>)

  /** The leftover bits always fit in the bits the next byte has room for. */
  predicate ValidState(st: DecodeState)
  {
    st.quadPos < 4 &&
    (st.quadPos == 1 ==> st.leftChar < 64) &&
    (st.quadPos == 2 ==> st.leftChar < 16) &&
    (st.quadPos == 3 ==> st.leftChar < 4)
  }

  /** The initial registers. */
  function Start(): DecodeState
  {
    DecodeState(0, 0, 0, [])
  }

  /** One alphabet character of value `v`: it completes a byte at every position but
      the first, and resets the pad count. The bitwise `or` of the source combines
      disjoint bits, so it is written as a sum. */
  function Absorb(st: DecodeState, v: nat): (r: DecodeState)
    requires ValidState(st) && v < 64
    ensures ValidState(r) && r.pads == 0 && r.quadPos == (st.quadPos + 1) % 4
    ensures |r.out| == |st.out| + (if st.quadPos == 0 then 0 else 1) && r.out[..|st.out|] == st.out
  {
    match st.quadPos
    case 0 => DecodeState(1, v, 0, st.out)
    case 1 => DecodeState(2, v % 16, 0, st.out + [st.leftChar * 4 + v / 16])
    case 2 => DecodeState(3, v % 4, 0, st.out + [st.leftChar * 16 + v / 4])
    case 3 => DecodeState(0, 0, 0, st.out + [st.leftChar * 64 + v])
  }

  /** The main loop of `a2b_base64` (non-strict) from `st` over the rest `s`. A pad at
      position 2 or 3 that makes four with the characters and pads of the current
      quantum ends decoding; other pads and non-alphabet characters are skipped. At the
      end of the input the quantum must be complete. */
  function Run(s: string, st: DecodeState): Result<seq<uint8>, DecodeError>
    requires ValidState(st)
    decreases |s|
  {
    if s == [] then
      if st.quadPos == 0 then Ok(st.out)
      else if st.quadPos == 1 then Err(DataCharCount(|st.out| / 3 * 4 + 1))
      else Err(IncorrectPadding)
    else if s[0] == '=' then
      if st.quadPos >= 2 && st.quadPos + st.pads + 1 >= 4 then Ok(st.out)
      else Run(s[1..], if st.quadPos >= 2 then st.(pads := st.pads + 1) else st)
    else
      match DecodeChar(s[0])
      case None => Run(s[1..], st)
      case Some(v) => Run(s[1..], Absorb(st, v))
  }

  /** `base64.b64decode` of a `str`. */
  function Decode(s: string): Result<seq<uint8>, DecodeError>
  {
    if exists i :: 0 <= i < |s| && s[i] as int >= 128 then Err(NonAscii)
    else Run(s, Start())
  }

  /** Decoding only ever appends to the bytes already written. */
  lemma {:induction false} RunExtends(s: string, st: DecodeState)
    requires ValidState(st)
    ensures Run(s, st).Ok? ==> |Run(s, st).value| >= |st.out| && Run(s, st).value[..|st.out|] == st.out
    decreases |s|
  {
    if s != [] && !(s[0] == '=' && st.quadPos >= 2 && st.quadPos + st.pads + 1 >= 4) {
      if s[0] == '=' {
        RunExtends(s[1..], if st.quadPos >= 2 then st.(pads := st.pads + 1) else st);
      } else {
        match DecodeChar(s[0])
        case None => RunExtends(s[1..], st);
        case Some(v) =>
          var next := Absorb(st, v);
          RunExtends(s[1..], next);
          var r := Run(s[1..], next);
          if r.Ok? {
            assert r.value[..|st.out|] == r.value[..|next.out|][..|st.out|];
          }
      }
    }
  }

  /** Running over one character `ch` of value `v` absorbs it. */
  lemma RunChar(ch: char, t: string, st: DecodeState, v: nat)
    requires ValidState(st) && v < 64 && ch != '=' && DecodeChar(ch) == Some(v)
    ensures Run([ch] + t, st) == Run(t, Absorb(st, v))
  {
    assert ([ch] + t)[1..] == t;
  }

  /** Running over a character outside the alphabet skips it. */
  lemma RunSkip(ch: char, t: string, st: DecodeState)
    requires ValidState(st) && ch != '=' && DecodeChar(ch).None?
    ensures Run([ch] + t, st) == Run(t, st)
  {
    assert ([ch] + t)[1..] == t;
  }

  /** Running over a pad. */
  lemma RunPad(t: string, st: DecodeState)
    requires ValidState(st)
    ensures st.quadPos >= 2 && st.quadPos + st.pads + 1 >= 4 ==> Run(['='] + t, st) == Ok(st.out)
    ensures !(st.quadPos >= 2 && st.quadPos + st.pads + 1 >= 4) ==>
      Run(['='] + t, st) == Run(t, if st.quadPos >= 2 then st.(pads := st.pads + 1) else st)
  {
    assert (['='] + t)[1..] == t;
  }

  /** Decoding the four characters of a quantum writes its three bytes and returns to
      the start of a quantum. */
  lemma RunQuantum(b0: uint8, b1: uint8, b2: uint8, t: string, out: seq<uint8>)
    ensures Run(Quantum(b0, b1, b2) + t, DecodeState(0, 0, 0, out)) ==
            Run(t, DecodeState(0, 0, 0, out + [b0, b1, b2]))
  {
    var v0, v1, v2, v3 := b0 / 4, b0 % 4 * 16 + b1 / 16, b1 % 16 * 4 + b2 / 64, b2 % 64;
    DecodeEncodeValue(v0);
    DecodeEncodeValue(v1);
    DecodeEncodeValue(v2);
    DecodeEncodeValue(v3);
    var c0, c1, c2, c3 := EncodeValue(v0), EncodeValue(v1), EncodeValue(v2), EncodeValue(v3);
    var s0 := DecodeState(0, 0, 0, out);
    var s1 := DecodeState(1, v0, 0, out);
    var s2 := DecodeState(2, v1 % 16, 0, out + [b0]);
    var s3 := DecodeState(3, v2 % 4, 0, out + [b0, b1]);
    var s4 := DecodeState(0, 0, 0, out + [b0, b1, b2]);
    assert Absorb(s0, v0) == s1;
    assert Absorb(s1, v1) == s2 by { assert v0 * 4 + v1 / 16 == b0; }
    assert Absorb(s2, v2) == s3 by { assert v1 % 16 * 16 + v2 / 4 == b1; assert out + [b0] + [b1] == out + [b0, b1]; }
    assert Absorb(s3, v3) == s4 by { assert v2 % 4 * 64 + v3 == b2; assert out + [b0, b1] + [b2] == out + [b0, b1, b2]; }
    assert Quantum(b0, b1, b2) + t == [c0] + ([c1] + ([c2] + ([c3] + t)));
    RunChar(c0, [c1] + ([c2] + ([c3] + t)), s0, v0);
    RunChar(c1, [c2] + ([c3] + t), s1, v1);
    RunChar(c2, [c3] + t, s2, v2);
    RunChar(c3, t, s3, v3);
  }

  /** Decoding a final two-byte group writes its bytes and stops at its pad. */
  lemma RunFinalTwo(b0: uint8, b1: uint8, t: string, out: seq<uint8>)
    ensures Run(FinalTwo(b0, b1) + t, DecodeState(0, 0, 0, out)) == Ok(out + [b0, b1])
  {
    var v0, v1, v2 := b0 / 4, b0 % 4 * 16 + b1 / 16, b1 % 16 * 4;
    DecodeEncodeValue(v0);
    DecodeEncodeValue(v1);
    DecodeEncodeValue(v2);
    var c0, c1, c2 := EncodeValue(v0), EncodeValue(v1), EncodeValue(v2);
    var s0 := DecodeState(0, 0, 0, out);
    var s1 := DecodeState(1, v0, 0, out);
    var s2 := DecodeState(2, v1 % 16, 0, out + [b0]);
    var s3 := DecodeState(3, v2 % 4, 0, out + [b0, b1]);
    assert Absorb(s0, v0) == s1;
    assert Absorb(s1, v1) == s2 by { assert v0 * 4 + v1 / 16 == b0; }
    assert Absorb(s2, v2) == s3 by { assert v1 % 16 * 16 + v2 / 4 == b1; assert out + [b0] + [b1] == out + [b0, b1]; }
    assert FinalTwo(b0, b1) + t == [c0] + ([c1] + ([c2] + (['='] + t)));
    RunChar(c0, [c1] + ([c2] + (['='] + t)), s0, v0);
    RunChar(c1, [c2] + (['='] + t), s1, v1);
    RunChar(c2, ['='] + t, s2, v2);
    RunPad(t, s3);
  }

  /** Decoding a final single byte writes it and stops at its second pad. */
  lemma RunFinalOne(b0: uint8, t: string, out: seq<uint8>)
    ensures Run(FinalOne(b0) + t, DecodeState(0, 0, 0, out)) == Ok(out + [b0])
  {
    var v0, v1 := b0 / 4, b0 % 4 * 16;
    DecodeEncodeValue(v0);
    DecodeEncodeValue(v1);
    var c0, c1 := EncodeValue(v0), EncodeValue(v1);
    var s0 := DecodeState(0, 0, 0, out);
    var s1 := DecodeState(1, v0, 0, out);
    var s2 := DecodeState(2, v1 % 16, 0, out + [b0]);
    assert Absorb(s0, v0) == s1;
    assert Absorb(s1, v1) == s2 by { assert v0 * 4 + v1 / 16 == b0; }
    assert FinalOne(b0) + t == [c0] + ([c1] + (['='] + (['='] + t)));
    RunChar(c0, [c1] + (['='] + (['='] + t)), s0, v0);
    RunChar(c1, ['='] + (['='] + t), s1, v1);
    RunPad(['='] + t, s2);
    RunPad(t, s2.(pads := 1));
  }

  /** Decoding an encoding followed by any text `t`: a padded encoding ends decoding,
      so `t` is ignored; an unpadded one leaves the decoder at the start of a quantum
      with the bytes written, and `t` is decoded after them. */
  lemma {:induction false} RunEncode(b: seq<uint8>, t: string, out: seq<uint8>)
    ensures Run(Encode(b) + t, DecodeState(0, 0, 0, out)) ==
      if |b| % 3 == 0 then Run(t, DecodeState(0, 0, 0, out + b)) else Ok(out + b)
    decreases |b|
  {
    if |b| == 0 {
      assert Encode(b) + t == t && out + b == out;
    } else if |b| == 1 {
      RunFinalOne(b[0], t, out);
      assert Encode(b) == FinalOne(b[0]);
      assert out + [b[0]] == out + b;
    } else if |b| == 2 {
      RunFinalTwo(b[0], b[1], t, out);
      assert Encode(b) == FinalTwo(b[0], b[1]);
      assert out + [b[0], b[1]] == out + b;
    } else {
      RunEncodeQuantum(b, t, out);
    }
  }

  lemma {:induction false} RunEncodeQuantum(b: seq<uint8>, t: string, out: seq<uint8>)
    requires |b| >= 3
    ensures Run(Encode(b) + t, DecodeState(0, 0, 0, out)) ==
      if |b| % 3 == 0 then Run(t, DecodeState(0, 0, 0, out + b)) else Ok(out + b)
    decreases |b|, 0
  {
    var rest := b[3..];
    var mid := out + [b[0], b[1], b[2]];
    assert mid + rest == out + b;
    assert |rest| % 3 == |b| % 3;
    assert Encode(b) == Quantum(b[0], b[1], b[2]) + Encode(rest);
    assert Encode(b) + t == Quantum(b[0], b[1], b[2]) + (Encode(rest) + t);
    RunQuantum(b[0], b[1], b[2], Encode(rest) + t, out);
    RunEncode(rest, t, mid);
  }

  /** `b64decode(b64encode(b).decode()) == b` for every byte string. */
  lemma DecodeEncode(b: seq<uint8>)
    ensures Decode(Encode(b)) == Ok(b)
  {
    EncodeShape(b);
    RunEncode(b, [], []);
    assert Encode(b) + [] == Encode(b) && [] + b == b;
    forall i | 0 <= i < |Encode(b)| ensures Encode(b)[i] as int < 128 {
      assert Encoded(Encode(b)[i]);
    }
  }

  /** A quantum and a padded byte decode to their bytes. */
  lemma DecodeExamplesValid()
    ensures Decode("QUJD") == Ok([65, 66, 67])
    ensures Decode("QQ==") == Ok([65])
  {
    assert Encode([65, 66, 67]) == "QUJD";
    DecodeEncode([65, 66, 67]);
    assert Encode([65]) == "QQ==";
    DecodeEncode([65]);
  }

  /** Text after complete padding is ignored. */
  lemma DecodeExampleAfterPadding()
    ensures Decode("QQ==QUJD") == Ok([65])
  {
    assert FinalOne(65) == "QQ==";
    RunFinalOne(65, "QUJD", []);
    assert "QQ==QUJD" == FinalOne(65) + "QUJD";
    forall i | 0 <= i < 8 ensures "QQ==QUJD"[i] as int < 128 { }
  }

  /** A newline and a `*` are skipped. A pad at quantum position 2 is counted, not
      skipped: the second pad after the `*` completes the quantum, and without that
      first pad the padding is incomplete. */
  lemma DecodeExampleSkipped()
    ensures Decode("Q\nQ=*=") == Ok([65])
    ensures Decode("Q\nQ*=") == Err(IncorrectPadding)
  {
    var s0 := DecodeState(0, 0, 0, []);
    var s1 := DecodeState(1, 16, 0, []);
    var s2 := DecodeState(2, 0, 0, [65]);
    assert "Q\nQ=*=" == ['Q'] + (['\n'] + (['Q'] + (['='] + (['*'] + (['='] + [])))));
    RunChar('Q', ['\n'] + (['Q'] + (['='] + (['*'] + (['='] + [])))), s0, 16);
    RunSkip('\n', ['Q'] + (['='] + (['*'] + (['='] + []))), s1);
    RunChar('Q', ['='] + (['*'] + (['='] + [])), s1, 16);
    RunPad(['*'] + (['='] + []), s2);
    RunSkip('*', ['='] + [], s2.(pads := 1));
    RunPad([], s2.(pads := 1));
    forall i | 0 <= i < 6 ensures "Q\nQ=*="[i] as int < 128 { }

    assert "Q\nQ*=" == ['Q'] + (['\n'] + (['Q'] + (['*'] + (['='] + []))));
    RunChar('Q', ['\n'] + (['Q'] + (['*'] + (['='] + []))), s0, 16);
    RunSkip('\n', ['Q'] + (['*'] + (['='] + [])), s1);
    RunChar('Q', ['*'] + (['='] + []), s1, 16);
    RunSkip('*', ['='] + [], s2);
    RunPad([], s2);
    forall i | 0 <= i < 5 ensures "Q\nQ*="[i] as int < 128 { }
  }

  /** A lone data character, missing padding and a non-ASCII character are errors. */
  lemma DecodeExamplesInvalid()
    ensures Decode("Q") == Err(DataCharCount(1))
    ensures Decode("QQ") == Err(IncorrectPadding)
    ensures Decode("Q\U{e9}") == Err(NonAscii)
  {
    var s0 := DecodeState(0, 0, 0, []);
    var s1 := DecodeState(1, 16, 0, []);
    RunChar('Q', [], s0, 16);
    assert "Q" == ['Q'] + [];
    RunChar('Q', "Q", s0, 16);
    RunChar('Q', [], s1, 16);
    assert "QQ" == ['Q'] + "Q";
    assert "Q\U{e9}"[1] as int >= 128;
  }
}
