/**
 Printing of arbitrary octets as text (librad_safeprint and the quoted strings of vp_prints_value in
 print.c).
 */
module SafePrint {
  import opened Octets

  const BACKSLASH: byte := 92
  const QUOTE: byte := 34
  const CR: byte := 13
  const LF: byte := 10
  const TAB: byte := 9

  function Digit(v: nat): (d: byte)
    requires v < 8
  {
    48 + v
  }

  /** The letter behind a backslash, or 0 if the octet has none. */
  function Letter(c: byte): (l: byte)
  {
    if c == BACKSLASH then BACKSLASH else if c == CR then 114 else if c == LF then 110 else if c == TAB then 116 else 0
  }

  predicate IsOctal(c: byte)
  {
    Letter(c) == 0 && (c < 32 || c >= 128)
  }

  /** How one octet is written; three octal digits where nothing shorter will do. */
  function Encoded(c: byte): (r: seq<byte>)
    ensures 1 <= |r| <= 4
  {
    if Letter(c) != 0 then [BACKSLASH, Letter(c)]
    else if IsOctal(c) then [BACKSLASH, Digit(c / 64), Digit(c / 8 % 8), Digit(c % 8)]
    else [c]
  }

  /** Backslash, CR, LF and tab have letters, other octets from 32 to 127 stand for themselves, and the rest are
      spelt by three octal digits behind a backslash. */
  lemma EncodedIs(c: byte)
    ensures Encoded(92) == [92, 92] && Encoded(13) == [92, 114] && Encoded(10) == [92, 110] && Encoded(9) == [92, 116]
    ensures 32 <= c < 128 && c != 92 ==> Encoded(c) == [c]
    ensures (c < 32 && c !in {9, 10, 13}) || c >= 128 ==>
              var r := Encoded(c);
              && |r| == 4 && r[0] == 92 && (forall i :: 1 <= i < 4 ==> 48 <= r[i] <= 55)
              && c as int == (r[1] - 48) * 64 + (r[2] - 48) * 8 + (r[3] - 48)
  {
    assert c as int == c / 64 * 64 + c / 8 % 8 * 8 + c % 8;
  }

  function Escaped(s: seq<byte>): (r: seq<byte>)
  {
    if s == [] then [] else Encoded(s[0]) + Escaped(s[1..])
  }

  /** A final zero is never printed. */
  function Trimmed(s: seq<byte>): (r: seq<byte>)
  {
    if s != [] && s[|s| - 1] == 0 then s[..|s| - 1] else s
  }

  /** With four octets of room left, the formatted octal loses its last digit to the terminator. */
  function Written(c: byte, room: int): (r: seq<byte>)
    ensures |r| == |Encoded(c)|
  {
    if IsOctal(c) && room <= 4 then Encoded(c)[..3] + [0] else Encoded(c)
  }

  /** What the loop prints.  Each octet printed counts twice: it is added to `done` and taken from the
      room that `done` is compared with. */
  function Printed(s: seq<byte>, done: nat, capacity: int): (r: seq<byte>)
    decreases |s|
  {
    if s == [] || done + 3 >= capacity - done || s == [0] then []
    else
      var w := Written(s[0], capacity - done);
      w + Printed(s[1..], done + |w|, capacity)
  }

  // ---------------------------------------------------------------- the loop

  method WriteOne(out: array<byte>, at: nat, room: int, c: byte) returns (next: nat)
    requires at + 4 <= out.Length
    modifies out
    ensures next == at + |Written(c, room)| <= out.Length
    ensures out[..at] == old(out[..at]) && out[at..next] == Written(c, room)
  {
    var sp := 0;
    next := at;
    if c == BACKSLASH {
      sp := BACKSLASH;
    } else if c == CR {
      sp := 114;
    } else if c == LF {
      sp := 110;
    } else if c == TAB {
      sp := 116;
    } else if c < 32 || c >= 128 {
      out[at] := BACKSLASH;
      out[at + 1] := Digit(c / 64);
      out[at + 2] := Digit(c / 8 % 8);
      out[at + 3] := if room <= 4 then 0 else Digit(c % 8);
      next := at + 4;
    } else {
      out[at] := c;
      next := at + 1;
    }
    if sp != 0 {
      out[at] := BACKSLASH;
      out[at + 1] := sp;
      next := at + 2;
    }
  }

  method WriteNext(out: array<byte>, at: nat, room: int, c: byte) returns (next: nat)
    requires at + 4 <= out.Length
    modifies out
    ensures next == at + |Written(c, room)| && next <= out.Length
    ensures out[..next] == old(out[..at]) + Written(c, room)
  {
    next := WriteOne(out, at, room, c);
    assert out[..next] == out[..at] + out[at..next];
  }

  lemma RoomForOne(length: nat, capacity: int, done: nat)
    requires capacity <= length && done + 3 < capacity - done
    ensures done + 4 <= length
  {
  }

  /** The buffer holds the printed text, and a terminating zero behind it unless that would stand outside. */
  method Print(inp: seq<byte>, inlen: int, out: array<byte>, capacity: int) returns (terminated: bool)
    requires inlen <= |inp| && (inlen < 0 ==> 0 in inp) && capacity <= out.Length
    modifies out
    ensures var s := inp[..if inlen < 0 then StrLen(inp) else inlen];
            var r := Printed(s, 0, capacity);
            && |r| <= out.Length && out[..|r|] == r
            && (terminated <==> |r| < out.Length)
            && (terminated ==> out[|r|] == 0)
  {
    var n := if inlen < 0 then StrLen(inp) else inlen;
    var done := PrintAll(inp[..n], out, capacity);
    terminated := done < out.Length;
    if terminated {
      out[done] := 0;
    }
  }

  method PrintAll(s: seq<byte>, out: array<byte>, capacity: int) returns (done: nat)
    requires capacity <= out.Length
    modifies out
    ensures done <= out.Length && out[..done] == Printed(s, 0, capacity)
  {
    var str := 0;
    done := 0;
    while str < |s| && done + 3 < capacity - done
      invariant 0 <= str <= |s| && 0 <= done <= out.Length
      invariant Printed(s, 0, capacity) == out[..done] + Printed(s[str..], done, capacity)
      decreases |s| - str
    {
      if str == |s| - 1 && s[str] == 0 {
        assert s[str..] == [0];
        break;
      }
      done := PrintNext(s, str, out, done, capacity);
      str := str + 1;
    }
    assert out[..done] + [] == out[..done];
  }

  method PrintNext(s: seq<byte>, str: nat, out: array<byte>, done: nat, capacity: int) returns (next: nat)
    requires capacity <= out.Length && str < |s| && done + 3 < capacity - done && s[str..] != [0]
    modifies out
    ensures done < next <= out.Length
    ensures old(out[..done]) + Printed(s[str..], done, capacity) == out[..next] + Printed(s[str + 1..], next, capacity)
  {
    RoomForOne(out.Length, capacity, done);
    PrintedStep(out[..done], s[str..], done, capacity);
    assert s[str..][1..] == s[str + 1..];
    next := WriteNext(out, done, capacity - done, s[str]);
  }

  lemma PrintedStep(text: seq<byte>, s: seq<byte>, done: nat, capacity: int)
    requires s != [] && s != [0] && done + 3 < capacity - done
    ensures var w := Written(s[0], capacity - done);
            text + Printed(s, done, capacity) == (text + w) + Printed(s[1..], done + |w|, capacity)
  {
  }

  // ---------------------------------------------------------------- where the terminator goes

  lemma {:induction false} PrintedBelow(s: seq<byte>, done: nat, capacity: int)
    requires 0 < done < capacity
    ensures done + |Printed(s, done, capacity)| < capacity
    decreases |s|
  {
    if s != [] && done + 3 < capacity - done && s != [0] {
      PrintedBelow(s[1..], done + |Written(s[0], capacity - done)|, capacity);
    }
  }

  /** A text that fills its buffer: the capacity is four and the first octet is printed in octal. */
  predicate Overfills(s: seq<byte>, capacity: int)
  {
    capacity == 4 && s != [] && s != [0] && IsOctal(s[0])
  }

  lemma PrintedLength(s: seq<byte>, capacity: int)
    requires 0 < capacity
    ensures |Printed(s, 0, capacity)| <= capacity
    ensures |Printed(s, 0, capacity)| == capacity <==> Overfills(s, capacity)
  {
    if s != [] && 3 < capacity && s != [0] {
      var next := |Written(s[0], capacity)|;
      if next < capacity {
        PrintedBelow(s[1..], next, capacity);
      }
    }
  }

  /** The terminator stands inside a buffer of `length` octets exactly when the text does not overfill it. */
  lemma TerminatorInsideExactly(s: seq<byte>, capacity: int, length: nat)
    requires capacity <= length && 0 < length
    ensures |Printed(s, 0, capacity)| < length <==> !(length == capacity && Overfills(s, capacity))
  {
    if 0 < capacity {
      PrintedLength(s, capacity);
    }
  }

  /** The octet 1 with a capacity of four leaves no room for the terminator. */
  lemma TerminatorOutside()
    ensures |Printed([1], 0, 4)| == 4
  {
    TerminatorInsideExactly([1], 4, 4);
  }

  // ---------------------------------------------------------------- when nothing is lost

  /** Room for `t` behind `done` octets already printed. */
  predicate Enough(t: seq<byte>, done: nat, capacity: int)
  {
    t == [] || (2 * (done + |Escaped(t[..|t| - 1])|) + 3 < capacity && !(capacity - done <= 4 && IsOctal(t[0])))
  }

  lemma WrittenWhole(c: byte, room: int)
    ensures Written(c, room) == Encoded(c) <==> !(IsOctal(c) && room <= 4)
  {
    if IsOctal(c) && room <= 4 {
      assert Written(c, room)[3] != Encoded(c)[3];
    }
  }

  lemma SplitEqual(a: seq<byte>, a': seq<byte>, b: seq<byte>, b': seq<byte>)
    requires |a| == |a'|
    ensures a + b == a' + b' <==> a == a' && b == b'
  {
    assert (a + b)[..|a|] == a && (a' + b')[..|a|] == a';
    assert (a + b)[|a|..] == b && (a' + b')[|a|..] == b';
  }

  lemma EnoughBehind(t: seq<byte>, done: nat, capacity: int)
    requires t != [] && 2 * done + 3 < capacity
    ensures Enough(t, done, capacity) <==>
            !(IsOctal(t[0]) && capacity - done <= 4) && Enough(t[1..], done + |Encoded(t[0])|, capacity)
  {
    if |t| > 1 {
      var t' := t[1..];
      assert t[..|t| - 1][1..] == t'[..|t'| - 1] && t[..|t| - 1][0] == t[0];
    }
  }

  lemma TrimmedRest(s: seq<byte>)
    requires s != [] && s != [0]
    ensures Trimmed(s) != [] && Trimmed(s)[0] == s[0] && Trimmed(s)[1..] == Trimmed(s[1..])
  {
  }

  lemma PrintsStepExactly(c: byte, rest: seq<byte>, t: seq<byte>, done: nat, capacity: int)
    requires t != [] && t[0] == c && 2 * done + 3 < capacity
    requires rest == Escaped(t[1..]) <==> Enough(t[1..], done + |Encoded(c)|, capacity)
    ensures Written(c, capacity - done) + rest == Escaped(t) <==> Enough(t, done, capacity)
  {
    WrittenWhole(c, capacity - done);
    SplitEqual(Written(c, capacity - done), Encoded(c), rest, Escaped(t[1..]));
    EnoughBehind(t, done, capacity);
  }

  lemma NothingPrinted(t: seq<byte>, done: nat, capacity: int)
    requires t != [] && done + 3 >= capacity - done
    ensures Escaped(t) != [] && !Enough(t, done, capacity)
  {
  }

  lemma PrintedOnce(s: seq<byte>, done: nat, capacity: int)
    requires s != [] && s != [0] && done + 3 < capacity - done
    ensures var w := Written(s[0], capacity - done);
            Printed(s, done, capacity) == w + Printed(s[1..], done + |w|, capacity) && |w| == |Encoded(s[0])|
  {
  }

  lemma {:induction false} PrintsRestExactly(s: seq<byte>, done: nat, capacity: int)
    ensures Printed(s, done, capacity) == Escaped(Trimmed(s)) <==> Enough(Trimmed(s), done, capacity)
    decreases |s|
  {
    if s != [] && s != [0] {
      TrimmedRest(s);
      if done + 3 < capacity - done {
        PrintedOnce(s, done, capacity);
        var next := done + |Encoded(s[0])|;
        PrintsRestExactly(s[1..], next, capacity);
        PrintsStepExactly(s[0], Printed(s[1..], next, capacity), Trimmed(s), done, capacity);
      } else {
        NothingPrinted(Trimmed(s), done, capacity);
      }
    }
  }

  /** The whole text comes out exactly when twice the length of all but its last octet, escaped, and
      three more fit the capacity. */
  lemma PrintsAllExactly(s: seq<byte>, capacity: int)
    ensures Printed(s, 0, capacity) == Escaped(Trimmed(s)) <==> Enough(Trimmed(s), 0, capacity)
  {
    PrintsRestExactly(s, 0, capacity);
  }

  /** Four times the length of the text is not enough for every text. */
  lemma FourTimesIsNotEnough()
    ensures var s: seq<byte> := [1, 1];
            Printed(s, 0, 4 * |s|) != Escaped(Trimmed(s))
  {
    var s: seq<byte> := [1, 1];
    PrintsAllExactly(s, 4 * |s|);
    assert s[..1] == [1];
    assert Escaped([1]) == Encoded(1) + [];
  }

  const QUOTED_CAPACITY := 1022

  /** A string value between double quotes. */
  function Quoted(s: seq<byte>): (r: seq<byte>)
  {
    [QUOTE] + Printed(s, 0, QUOTED_CAPACITY) + [QUOTE]
  }

  /** A value stands between two double quotes, and it is all there exactly when it is printed into 1022 octets. */
  lemma QuotedExactly(s: seq<byte>)
    ensures Quoted(s) == [34] + Escaped(Trimmed(s)) + [34] <==> Enough(Trimmed(s), 0, 1022)
  {
    PrintsAllExactly(s, 1022);
    var a, b := Printed(s, 0, 1022), Escaped(Trimmed(s));
    if [34] + a + [34] == [34] + b + [34] {
      assert a == ([34] + a + [34])[1..|a| + 1] && b == ([34] + b + [34])[1..|b| + 1];
    }
  }
}
