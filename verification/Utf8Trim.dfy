/** `_INTERNAL_trim_to_complete_utf8_characters`: a cut is moved back to the end of the last complete character. */
module Utf8Trim {
  import opened Core
  import opened Utf8

  /** How many bytes a lead byte announces; 1 for ASCII, 0 for any other byte. */
  function Announced(b: byte): nat {
    if 0xf0 <= b <= 0xf7 then 4
    else if 0xe0 <= b <= 0xef then 3
    else if 0xc0 <= b <= 0xdf then 2
    else if b <= 0x7f then 1
    else 0
  }

  /** The announced length, by the bit masks of the loop. */
  lemma AnnouncedByMask(b: bv8)
    ensures var n := Announced(b as int);
      && (n == 4 <==> b & 0xf8 == 0xf0) && (n == 3 <==> b & 0xf0 == 0xe0)
      && (n == 2 <==> b & 0xe0 == 0xc0) && (n == 1 <==> b & 0x80 == 0)
  {
    assert b & 0xf8 == 0xf0 <==> 0xf0 <= b <= 0xf7;
    assert b & 0xf0 == 0xe0 <==> 0xe0 <= b <= 0xef;
    assert b & 0xe0 == 0xc0 <==> 0xc0 <= b <= 0xdf;
    assert b & 0x80 == 0 <==> b <= 0x7f;
  }

  /** Where the backward walk stops, standing at `lim` after `walked` steps. */
  function TrimFrom(s: seq<byte>, lim: nat, walked: nat): (r: int)
    requires lim <= |s|
    ensures 0 <= r <= lim + walked
    decreases lim
  {
    if lim == 0 then 0
    else
      var n := Announced(s[lim - 1]);
      if n == 1 then lim
      else if n == 0 then TrimFrom(s, lim - 1, walked + 1)
      else if walked + 1 >= n then lim + n - 1
      else TrimFrom(s, lim - 1, 1)
  }

  /**
    The loop on memory between `from` and `fromLim`, whatever bytes are there: it
    ends, and the limit stays between `from` and where it was.
   */
  method TrimToCompleteCharacters(memory: array<byte>, from: nat, fromLim: nat) returns (trimmed: nat)
    requires from <= fromLim <= memory.Length
    ensures from <= trimmed <= fromLim
    ensures trimmed == from + TrimFrom(memory[from..fromLim], fromLim - from, 0)
  {
    ghost var s := memory[from..fromLim];
    var lim, walked := fromLim, 0;
    while lim > from
      invariant from <= lim && lim + walked <= fromLim
      invariant TrimFrom(s, fromLim - from, 0) == TrimFrom(s, lim - from, walked)
    {
      var prev := memory[lim - 1];
      assert prev == s[lim - from - 1];
      if 0xf0 <= prev <= 0xf7 {
        if walked + 1 >= 4 {
          return lim + 3;
        }
        walked := 0;
      } else if 0xe0 <= prev <= 0xef {
        if walked + 1 >= 3 {
          return lim + 2;
        }
        walked := 0;
      } else if 0xc0 <= prev <= 0xdf {
        if walked + 1 >= 2 {
          return lim + 1;
        }
        walked := 0;
      } else if prev <= 0x7f {
        return lim;
      }
      lim, walked := lim - 1, walked + 1;
    }
    trimmed := lim;
  }

  /** The end of the last character of `cs` that is complete within `cut` bytes. */
  function CompleteEnd(cs: seq<scalar>, cut: nat): nat
    decreases cs
  {
    if cs == [] || |Encode(cs[0])| > cut then 0
    else |Encode(cs[0])| + CompleteEnd(cs[1..], cut - |Encode(cs[0])|)
  }

  // ---- proof -------------------------------------------------------------------

  /** The lead byte announces the length, the other bytes announce nothing. */
  lemma EncodedShape(c: scalar)
    ensures Announced(Encode(c)[0]) == |Encode(c)|
    ensures forall i :: 1 <= i < |Encode(c)| ==> Announced(Encode(c)[i]) == 0
  {
    assert IsScalar(c);
  }

  /** Walking back over `n` tail bytes counts them. */
  lemma {:induction false} SkipTails(s: seq<byte>, lim: nat, n: nat, walked: nat)
    requires n <= lim <= |s|
    requires forall i :: lim - n <= i < lim ==> Announced(s[i]) == 0
    ensures TrimFrom(s, lim, walked) == TrimFrom(s, lim - n, walked + n)
    decreases n
  {
    if n > 0 {
      SkipTails(s, lim - 1, n - 1, walked + 1);
    }
  }

  /** After a complete character the walk stops where it stands, however far it had come. */
  lemma StopsAfterCharacter(s: seq<byte>, start: nat, c: scalar, walked: nat)
    requires start + |Encode(c)| <= |s| && s[start..start + |Encode(c)|] == Encode(c)
    ensures TrimFrom(s, start + |Encode(c)|, walked) == start + |Encode(c)|
  {
    var n := |Encode(c)|;
    EncodedShape(c);
    forall i | start < i < start + n ensures Announced(s[i]) == 0 {
      assert s[i] == Encode(c)[i - start];
    }
    assert s[start] == Encode(c)[0];
    SkipTails(s, start + n, n - 1, walked);
  }

  /** Within an incomplete character the walk goes back to its start. */
  lemma LeavesPartialCharacter(s: seq<byte>, start: nat, c: scalar)
    requires start < |s| < start + |Encode(c)| && s[start..] == Encode(c)[..|s| - start]
    ensures TrimFrom(s, |s|, 0) == TrimFrom(s, start, 1)
  {
    EncodedShape(c);
    forall i | start < i < |s| ensures Announced(s[i]) == 0 {
      assert s[i] == s[start..][i - start];
    }
    assert s[start] == s[start..][0];
    SkipTails(s, |s|, |s| - start - 1, 0);
  }

  lemma StopsAtStart(s: seq<byte>, walked: nat)
    ensures TrimFrom(s, 0, walked) == 0
  {}

  lemma EncodeInitLast(cs: seq<scalar>)
    requires cs != []
    ensures EncodeAll(cs) == EncodeAll(cs[..|cs| - 1]) + Encode(cs[|cs| - 1])
  {
    hide Encode, EncodeAll;
    var init, last := cs[..|cs| - 1], cs[|cs| - 1];
    assert cs == init + [last];
    EncodeAllConcat(init, [last]);
    EncodeOne(last);
  }

  lemma EncodeOne(c: scalar)
    ensures EncodeAll([c]) == Encode(c)
  {
    hide Encode;
    assert [c][1..] == [];
    assert EncodeAll([c]) == Encode(c) + EncodeAll([c][1..]);
  }

  /** At the end of complete characters the walk stops where it stands. */
  lemma StopsAtBoundary(cs: seq<scalar>, walked: nat, s: seq<byte>)
    requires EncodeAll(cs) <= s
    ensures TrimFrom(s, |EncodeAll(cs)|, walked) == |EncodeAll(cs)|
  {
    hide Encode, TrimFrom, EncodeAll;
    if cs == [] {
      StopsAtStart(s, walked);
      assert |EncodeAll(cs)| == 0 by { EncodeNone(); }
    } else {
      EncodeInitLast(cs);
      var start, c := |EncodeAll(cs[..|cs| - 1])|, cs[|cs| - 1];
      assert s[start..start + |Encode(c)|] == s[..|EncodeAll(cs)|][start..];
      StopsAfterCharacter(s, start, c, walked);
    }
  }

  lemma EncodeNone()
    ensures EncodeAll([]) == []
  {}

  /** Any cut of an encoding is complete characters and a proper part of the next one. */
  lemma {:induction false} CutSplits(cs: seq<scalar>, cut: nat) returns (k: nat)
    requires cut <= |EncodeAll(cs)|
    ensures k <= |cs| && CompleteEnd(cs, cut) == |EncodeAll(cs[..k])| <= cut
    ensures k < |cs| ==> cut < |EncodeAll(cs[..k])| + |Encode(cs[k])|
    ensures k == |cs| ==> cut == |EncodeAll(cs[..k])|
    decreases cs
  {
    hide Encode;
    if cs == [] || |Encode(cs[0])| > cut {
      k := 0;
    } else {
      var n := |Encode(cs[0])|;
      var j := CutSplits(cs[1..], cut - n);
      k := j + 1;
      assert cs[..k][1..] == cs[1..][..j];
      assert EncodeAll(cs[..k]) == Encode(cs[0]) + EncodeAll(cs[1..][..j]);
    }
  }

  /**
    For every text and every cut of its encoding, trimming returns exactly the end of
    the last character that is complete before the cut.
   */
  lemma TrimAnyCut(cs: seq<scalar>, cut: nat)
    requires cut <= |EncodeAll(cs)|
    ensures TrimFrom(EncodeAll(cs)[..cut], cut, 0) == CompleteEnd(cs, cut)
  {
    hide Encode, CompleteEnd;
    var k := CutSplits(cs, cut);
    var s := EncodeAll(cs)[..cut];
    var whole := EncodeAll(cs[..k]);
    assert cs == cs[..k] + cs[k..];
    EncodeAllConcat(cs[..k], cs[k..]);
    assert whole <= s;
    if |whole| == cut {
      StopsAtBoundary(cs[..k], 0, s);
    } else {
      var c := cs[k];
      assert EncodeAll(cs[k..]) == Encode(c) + EncodeAll(cs[k..][1..]);
      assert s[|whole|..] == Encode(c)[..cut - |whole|];
      LeavesPartialCharacter(s, |whole|, c);
      StopsAtBoundary(cs[..k], 1, s);
    }
  }
}
