/**
 The tokenizer (getthing and gettoken in token.c), and reading back what SafePrint has printed.
 Text is a sequence of octets; the octet behind its end is the terminating zero.
 */
module Tokens {
  import opened Octets
  import opened SafePrint

  const TOKENS: seq<seq<byte>> := [
    [61, 126], [33, 126], [123], [125], [40], [41], [44], [43, 61], [45, 61], [58, 61], [61, 42],
    [33, 42], [61, 61], [61], [33, 61], [62, 61], [62], [60, 61], [60], [35], [59]]

  datatype Token = EndOfLine | Special(index: nat) | BareWord | SingleQuoted | DoubleQuoted | BackQuoted

  function At(text: seq<byte>, p: nat): (c: byte)
  {
    if p < |text| then text[p] else 0
  }

  predicate IsSpace(c: byte)
  {
    9 <= c <= 13 || c == 32
  }

  /** White space as the C locale has it. */
  lemma SpaceIs(c: byte)
    ensures IsSpace(c) <==> c as char in {' ', '\t', '\n', '\r', 11 as char, 12 as char}
  {
  }

  lemma OctalDigitIs(c: byte)
    ensures OctalDigit(c) <==> '0' <= c as char <= '7'
  {
  }

  /** The table by its characters. */
  lemma TokensAre()
    ensures |TOKENS| == 21
    ensures TOKENS[0] == ['=' as int, '~' as int] && TOKENS[1] == ['!' as int, '~' as int]
    ensures TOKENS[2] == ['{' as int] && TOKENS[3] == ['}' as int]
    ensures TOKENS[4] == ['(' as int] && TOKENS[5] == [')' as int]
    ensures TOKENS[6] == [',' as int] && TOKENS[7] == ['+' as int, '=' as int]
    ensures TOKENS[8] == ['-' as int, '=' as int] && TOKENS[9] == [':' as int, '=' as int]
    ensures TOKENS[10] == ['=' as int, '*' as int] && TOKENS[11] == ['!' as int, '*' as int]
    ensures TOKENS[12] == ['=' as int, '=' as int] && TOKENS[13] == ['=' as int]
    ensures TOKENS[14] == ['!' as int, '=' as int] && TOKENS[15] == ['>' as int, '=' as int]
    ensures TOKENS[16] == ['>' as int] && TOKENS[17] == ['<' as int, '=' as int]
    ensures TOKENS[18] == ['<' as int] && TOKENS[19] == ['#' as int]
    ensures TOKENS[20] == [';' as int]
  {
  }

  function SkipSpace(text: seq<byte>, p: nat): (q: nat)
    requires p <= |text|
    ensures p <= q <= |text| && !IsSpace(At(text, q))
    decreases |text| - p
  {
    if IsSpace(At(text, p)) then SkipSpace(text, p + 1) else p
  }

  /** A table of special tokens: one or two octets each, none of them zero. */
  predicate TokenList(list: seq<seq<byte>>)
  {
    forall i :: 0 <= i < |list| ==> 1 <= |list[i]| <= 2 && 0 !in list[i]
  }

  predicate TokenAt(text: seq<byte>, p: nat, name: seq<byte>)
  {
    name != [] && At(text, p) == name[0] && (|name| == 1 || At(text, p + 1) == name[1])
  }

  /** The first special token of the table at this place; the length of the table if there is none. */
  function FirstToken(text: seq<byte>, p: nat, list: seq<seq<byte>>, from: nat): (i: nat)
    requires from <= |list|
    ensures from <= i <= |list| && (i < |list| ==> TokenAt(text, p, list[i]))
    ensures forall j :: from <= j < i ==> !TokenAt(text, p, list[j])
    decreases |list| - from
  {
    if from == |list| || TokenAt(text, p, list[from]) then from else FirstToken(text, p, list, from + 1)
  }

  predicate OctalDigit(c: byte)
  {
    48 <= c <= 55
  }

  /** What sscanf reads with %3o where there is at least one octal digit. */
  function OctalValue(text: seq<byte>, p: nat): (x: nat)
    requires OctalDigit(At(text, p))
  {
    var a := At(text, p) - 48;
    if !OctalDigit(At(text, p + 1)) then a
    else
      var b := 8 * a + (At(text, p + 1) - 48);
      if !OctalDigit(At(text, p + 2)) then b else 8 * b + (At(text, p + 2) - 48)
  }

  /** The end of the scan of a word: where it stopped and what it collected, or past the end of the
      text, where an octal escape that is too short leads. */
  datatype Scanned = Scanned(p: nat, word: seq<byte>) | Overrun

  /** One octet behind a backslash. */
  datatype Unescaped = Unescaped(c: byte, width: nat)

  function Unescape(text: seq<byte>, p: nat): (u: Unescaped)
  {
    var c := At(text, p);
    if c == 114 then Unescaped(CR, 1)
    else if c == 110 then Unescaped(LF, 1)
    else if c == 116 then Unescaped(TAB, 1)
    else if OctalDigit(c) then Unescaped(OctalValue(text, p) % 256, 3)
    else Unescaped(c, 1)
  }

  /** Whether a word ends here; a quoted word ends only at its quote. */
  predicate Ends(text: seq<byte>, p: nat, quote: byte, list: seq<seq<byte>>)
  {
    if quote != 0 then At(text, p) == quote
    else IsSpace(At(text, p)) || FirstToken(text, p, list, 0) < |list|
  }

  /** The scan; every turn of the loop uses up one of `n`, also the one that only sees a backslash. */
  function Scan(text: seq<byte>, p: nat, n: nat, quote: byte, list: seq<seq<byte>>, escape: bool,
                word: seq<byte>): (r: Scanned)
    requires p <= |text|
    ensures r.Scanned? ==> p <= r.p <= |text|
    ensures r.Scanned? ==> |r.word| <= |word| + n
    decreases n
  {
    if p == |text| || n == 0 then Scanned(p, word)
    else if escape then
      var u := Unescape(text, p);
      if p + u.width > |text| then Overrun else Scan(text, p + u.width, n - 1, quote, list, false, word + [u.c])
    else if text[p] == BACKSLASH then Scan(text, p + 1, n - 1, quote, list, true, word)
    else if Ends(text, p, quote, list) then Scanned(if quote != 0 then p + 1 else p, word)
    else Scan(text, p + 1, n - 1, quote, list, false, word + [text[p]])
  }

  // ---------------------------------------------------------------- the tokenizer

  datatype Thing = Thing(token: Token, next: nat, word: seq<byte>) | Lost

  function KindOf(quote: byte): (t: Token)
  {
    if quote == 39 then SingleQuoted
    else if quote == QUOTE then DoubleQuoted
    else if quote == 96 then BackQuoted
    else BareWord
  }

  function QuoteAt(text: seq<byte>, p: nat): (c: byte)
    requires p < |text|
  {
    if text[p] == QUOTE || text[p] == 39 || text[p] == 96 then text[p] else 0
  }

  lemma TokenInside(text: seq<byte>, p: nat, list: seq<seq<byte>>, i: nat)
    requires TokenList(list) && i < |list| && TokenAt(text, p, list[i])
    ensures p + |list[i]| <= |text| && 1 <= |list[i]| <= 2
  {
  }

  function Got(text: seq<byte>, ptr: nat, buflen: nat, list: seq<seq<byte>>): (r: Thing)
    requires ptr <= |text| && TokenList(list)
  {
    var p := SkipSpace(text, ptr);
    if p == |text| then Thing(EndOfLine, p, [])
    else
      var i := FirstToken(text, p, list, 0);
      if i < |list| then
        TokenInside(text, p, list, i);
        Thing(Special(i), SkipSpace(text, p + |list[i]|), list[i])
      else
        var quote := QuoteAt(text, p);
        match Scan(text, if quote != 0 then p + 1 else p, buflen, quote, list, false, [])
        case Overrun => Lost
        case Scanned(q, w) => Thing(KindOf(quote), SkipSpace(text, q), w)
  }

  method Skip(text: seq<byte>, p: nat) returns (q: nat)
    requires p <= |text|
    ensures q == SkipSpace(text, p)
  {
    q := p;
    while q < |text| && IsSpace(text[q])
      invariant p <= q <= |text| && SkipSpace(text, p) == SkipSpace(text, q)
    {
      q := q + 1;
    }
  }

  method MatchToken(text: seq<byte>, p: nat, list: seq<seq<byte>>) returns (i: nat)
    ensures i == FirstToken(text, p, list, 0)
  {
    i := 0;
    while i < |list| && !TokenAt(text, p, list[i])
      invariant i <= |list| && FirstToken(text, p, list, 0) == FirstToken(text, p, list, i)
    {
      i := i + 1;
    }
  }

  /** The loop over a word, and the zero behind it unless that would stand outside the buffer. */
  method ScanWord(text: seq<byte>, start: nat, buf: array<byte>, buflen: nat, quote: byte, list: seq<seq<byte>>)
    returns (r: Scanned, terminated: bool)
    requires start <= |text| && 0 !in text && buflen <= buf.Length
    modifies buf
    ensures r == Scan(text, start, buflen, quote, list, false, [])
    ensures r.Scanned? ==> |r.word| <= buflen && buf[..|r.word|] == r.word
    ensures terminated <==> r.Scanned? && |r.word| < buf.Length
    ensures terminated ==> buf[|r.word|] == 0
  {
    var p, s, n, escape := start, 0, buflen, false;
    ghost var end := Scan(text, start, buflen, quote, list, false, []);
    while p < |text| && n > 0
      invariant start <= p <= |text| && 0 <= s && 0 <= n && s + n <= buflen
      invariant end == Scan(text, p, n, quote, list, escape, buf[..s])
      decreases n
    {
      n := n - 1;
      ghost var word := buf[..s];
      if escape {
        escape := false;
        var u := Unescape(text, p);
        if p + u.width > |text| {
          return Overrun, false;
        }
        buf[s] := u.c;
        assert buf[..s + 1] == word + [u.c];
        p, s := p + u.width, s + 1;
      } else if text[p] == BACKSLASH {
        p, escape := p + 1, true;
      } else {
        var ends := WordEnds(text, p, quote, list);
        if ends {
          p := if quote != 0 then p + 1 else p;
          break;
        }
        buf[s] := text[p];
        assert buf[..s + 1] == word + [text[p]];
        p, s := p + 1, s + 1;
      }
    }
    r, terminated := Scanned(p, buf[..s]), s < buf.Length;
    if terminated {
      buf[s] := 0;
    }
  }

  method WordEnds(text: seq<byte>, p: nat, quote: byte, list: seq<seq<byte>>) returns (b: bool)
    requires p < |text|
    ensures b == Ends(text, p, quote, list)
  {
    if quote != 0 {
      b := text[p] == quote;
    } else if IsSpace(text[p]) {
      b := true;
    } else {
      var i := MatchToken(text, p, list);
      b := i < |list|;
    }
  }

  /** The tokenizer finds what the specification says, and leaves the word in the buffer. */
  method GetThing(text: seq<byte>, ptr: nat, buf: array<byte>, buflen: nat, list: seq<seq<byte>>)
    returns (r: Thing, terminated: bool)
    requires ptr <= |text| && 0 !in text && buflen <= buf.Length && 3 <= buf.Length && TokenList(list)
    modifies buf
    ensures r == Got(text, ptr, buflen, list)
    ensures r.Thing? ==> |r.word| <= buf.Length && buf[..|r.word|] == r.word
    ensures terminated <==> r.Thing? && |r.word| < buf.Length
    ensures terminated ==> buf[|r.word|] == 0
  {
    buf[0] := 0;
    var p := Skip(text, ptr);
    if p == |text| {
      return Thing(EndOfLine, p, []), true;
    }
    var i := MatchToken(text, p, list);
    if i < |list| {
      TokenInside(text, p, list, i);
      CopyWord(buf, list[i]);
      var q := Skip(text, p + |list[i]|);
      return Thing(Special(i), q, list[i]), true;
    }
    var quote := QuoteAt(text, p);
    var w, ended := ScanWord(text, if quote != 0 then p + 1 else p, buf, buflen, quote, list);
    if w == Overrun {
      return Lost, false;
    }
    var q := Skip(text, w.p);
    r, terminated := Thing(KindOf(quote), q, w.word), ended;
  }

  method CopyWord(buf: array<byte>, word: seq<byte>)
    requires |word| <= 2 && 3 <= buf.Length
    modifies buf
    ensures buf[..|word|] == word && buf[|word|] == 0
  {
    for k := 0 to |word|
      invariant buf[..k] == word[..k]
    {
      buf[k] := word[k];
    }
    buf[|word|] := 0;
  }

  // ---------------------------------------------------------------- words that fill the buffer

  /** `n` octets from `p` on that each go into the word as they are. */
  predicate Fills(text: seq<byte>, p: nat, n: nat, quote: byte, list: seq<seq<byte>>)
  {
    p + n <= |text| && forall i :: p <= i < p + n ==> text[i] != BACKSLASH && !Ends(text, i, quote, list)
  }

  lemma {:induction false} ScanFills(text: seq<byte>, p: nat, n: nat, quote: byte, list: seq<seq<byte>>,
                                     word: seq<byte>)
    requires p <= |text|
    ensures var r := Scan(text, p, n, quote, list, false, word);
            r.Scanned? && |r.word| == |word| + n <==> Fills(text, p, n, quote, list)
    decreases n
  {
    if n > 0 && p < |text| && text[p] != BACKSLASH && !Ends(text, p, quote, list) {
      ScanFills(text, p + 1, n - 1, quote, list, word + [text[p]]);
    }
  }

  /** With a buffer of exactly `n` octets, the terminator lands outside exactly when a word begins here
      whose first `n` octets hold no backslash and nothing that ends it. */
  lemma TerminatorOutsideExactly(text: seq<byte>, ptr: nat, n: nat, list: seq<seq<byte>>)
    requires ptr <= |text| && TokenList(list) && 3 <= n
    ensures var g := Got(text, ptr, n, list);
            var p := SkipSpace(text, ptr);
            g.Thing? && |g.word| >= n
            <==> && p < |text| && FirstToken(text, p, list, 0) == |list|
                 && var quote := QuoteAt(text, p);
                    Fills(text, if quote != 0 then p + 1 else p, n, quote, list)
  {
    var p := SkipSpace(text, ptr);
    if p < |text| {
      var quote := QuoteAt(text, p);
      ScanFills(text, if quote != 0 then p + 1 else p, n, quote, list, []);
    }
  }

  /** A plain word as long as the buffer does so. */
  lemma LongWord(text: seq<byte>, list: seq<seq<byte>>)
    requires TokenList(list) && AllPlain(text, list) && 3 <= |text| && text[0] !in {QUOTE, 39, 96}
    ensures var g := Got(text, 0, |text|, list); g.Thing? && |g.word| == |text|
  {
    forall i | 0 <= i < |text| ensures !Ends(text, i, 0, list) {
      NoTokenStarts(text, i, list);
    }
    NoTokenStarts(text, 0, list);
    ScanFills(text, 0, |text|, 0, list, []);
  }

  // ---------------------------------------------------------------- reading back what was printed

  /** Turns of the loop an encoded octet takes. */
  function Turn(c: byte): (n: nat)
  {
    if |Encoded(c)| == 1 then 1 else 2
  }

  function Turns(s: seq<byte>): (n: nat)
  {
    if s == [] then 0 else Turn(s[0]) + Turns(s[1..])
  }

  lemma Behind(text: seq<byte>, p: nat, e: seq<byte>, f: seq<byte>, more: seq<byte>)
    requires p <= |text| && text[p..] == e + f + more
    ensures text[p..] == e + (f + more) && p + |e| <= |text| && text[p + |e|..] == f + more
  {
    assert e + f + more == e + (f + more);
    assert text[p + |e|..] == text[p..][|e|..];
  }

  lemma OctalReads(text: seq<byte>, p: nat, c: byte, more: seq<byte>)
    requires IsOctal(c) && p <= |text| && text[p..] == Encoded(c) + more
    ensures p + 4 <= |text| && Unescape(text, p + 1) == Unescaped(c, 3)
  {
    FourAt(text, p, Encoded(c), more);
    OctalDigits(c);
    DigitsRead(text, p + 1, c / 64, c / 8 % 8, c % 8);
  }

  lemma FourAt(text: seq<byte>, p: nat, e: seq<byte>, more: seq<byte>)
    requires |e| == 4 && p <= |text| && text[p..] == e + more
    ensures p + 4 <= |text| && forall i :: 0 <= i < 4 ==> text[p + i] == e[i]
  {
    forall i | 0 <= i < 4 ensures text[p + i] == e[i] {
      assert text[p + i] == text[p..][i];
    }
  }

  lemma OctalDigits(c: byte)
    ensures c == 64 * (c / 64) + 8 * (c / 8 % 8) + c % 8 && c / 64 < 4
  {
  }

  lemma DigitsRead(text: seq<byte>, p: nat, x: nat, y: nat, z: nat)
    requires x < 4 && y < 8 && z < 8 && p + 3 <= |text|
    requires text[p] == Digit(x) && text[p + 1] == Digit(y) && text[p + 2] == Digit(z)
    ensures Unescape(text, p) == Unescaped(64 * x + 8 * y + z, 3)
  {
    assert OctalValue(text, p) == 64 * x + 8 * y + z < 256;
  }

  /** One encoded octet is read back as itself. */
  lemma OneReads(text: seq<byte>, p: nat, c: byte, more: seq<byte>, n: nat, list: seq<seq<byte>>, word: seq<byte>)
    requires c != QUOTE && p <= |text| && text[p..] == Encoded(c) + more && n >= Turn(c)
    ensures Scan(text, p, n, QUOTE, list, false, word) ==
            Scan(text, p + |Encoded(c)|, n - Turn(c), QUOTE, list, false, word + [c])
  {
    var t := text[p..];
    assert t[0] == text[p];
    if Letter(c) != 0 {
      assert t[1] == text[p + 1];
    } else if IsOctal(c) {
      OctalReads(text, p, c, more);
    }
  }

  lemma QuoteEnds(text: seq<byte>, p: nat, n: nat, list: seq<seq<byte>>, word: seq<byte>)
    requires p < |text| && text[p..][0] == QUOTE && n > 0
    ensures Scan(text, p, n, QUOTE, list, false, word) == Scanned(p + 1, word)
  {
  }

  lemma {:induction false} AllRead(text: seq<byte>, p: nat, s: seq<byte>, more: seq<byte>, n: nat, list: seq<seq<byte>>,
                                   word: seq<byte>)
    requires QUOTE !in s && n > Turns(s) && p <= |text| && text[p..] == Escaped(s) + more && more != []
             && more[0] == QUOTE
    ensures Scan(text, p, n, QUOTE, list, false, word) == Scanned(p + |Escaped(s)| + 1, word + s)
    decreases |s|
  {
    if s == [] {
      assert word + s == word && Escaped(s) + more == more;
      QuoteEnds(text, p, n, list, word);
    } else {
      NextRead(text, p, s, more, n, list, word);
      AllRead(text, p + |Encoded(s[0])|, s[1..], more, n - Turn(s[0]), list, word + [s[0]]);
      assert word + s == word + [s[0]] + s[1..];
    }
  }

  lemma NextRead(text: seq<byte>, p: nat, s: seq<byte>, more: seq<byte>, n: nat, list: seq<seq<byte>>, word: seq<byte>)
    requires s != [] && s[0] != QUOTE && n > Turns(s) && p <= |text| && text[p..] == Escaped(s) + more
    ensures p + |Encoded(s[0])| <= |text| && text[p + |Encoded(s[0])|..] == Escaped(s[1..]) + more
    ensures Scan(text, p, n, QUOTE, list, false, word)
         == Scan(text, p + |Encoded(s[0])|, n - Turn(s[0]), QUOTE, list, false, word + [s[0]])
  {
    FirstBehind(text, p, s, more);
    OneReads(text, p, s[0], Escaped(s[1..]) + more, n, list, word);
  }

  lemma FirstBehind(text: seq<byte>, p: nat, s: seq<byte>, more: seq<byte>)
    requires s != [] && p <= |text| && text[p..] == Escaped(s) + more
    ensures text[p..] == Encoded(s[0]) + (Escaped(s[1..]) + more) && p + |Encoded(s[0])| <= |text|
    ensures text[p + |Encoded(s[0])|..] == Escaped(s[1..]) + more
  {
    Behind(text, p, Encoded(s[0]), Escaped(s[1..]), more);
  }

  /** What comes before the first double quote. */
  function UpToQuote(s: seq<byte>): (r: seq<byte>)
    ensures QUOTE !in r && |r| <= |s| && s[..|r|] == r && (|r| < |s| ==> s[|r|] == QUOTE)
  {
    if s == [] || s[0] == QUOTE then [] else [s[0]] + UpToQuote(s[1..])
  }

  lemma {:induction false} EscapedConcat(a: seq<byte>, b: seq<byte>)
    ensures Escaped(a + b) == Escaped(a) + Escaped(b)
  {
    if a == [] {
      assert a + b == b;
    } else {
      EscapedConcat(a[1..], b);
      assert (a + b)[1..] == a[1..] + b;
      Assoc(Encoded(a[0]), Escaped(a[1..]), Escaped(b));
    }
  }

  lemma {:induction false} TurnsOfPart(s: seq<byte>, k: nat)
    requires k <= |s|
    ensures Turns(s[..k]) <= Turns(s)
  {
    if k > 0 {
      TurnsOfPart(s[1..], k - 1);
      assert s[..k][1..] == s[1..][..k - 1];
    }
  }

  /** Behind the part before the first quote, escaped, there is a quote. */
  lemma QuoteFollows(s: seq<byte>) returns (more: seq<byte>)
    ensures Escaped(s) + [QUOTE] == Escaped(UpToQuote(s)) + more && more != [] && more[0] == QUOTE
  {
    var u := UpToQuote(s);
    var rest := s[|u|..];
    assert s == u + rest;
    EscapedConcat(u, rest);
    more := Escaped(rest) + [QUOTE];
    Assoc(Escaped(u), Escaped(rest), [QUOTE]);
    if rest != [] {
      assert more[0] == Encoded(QUOTE)[0] == QUOTE;
    }
  }

  /** No special token begins with a double quote. */
  predicate QuoteIsFree(list: seq<seq<byte>>)
  {
    TokenList(list) && forall i :: 0 <= i < |list| ==> list[i][0] != QUOTE
  }

  lemma TokensAreGood()
    ensures QuoteIsFree(TOKENS)
  {
  }

  /** The C string in a buffer. */
  function CString(s: seq<byte>): (r: seq<byte>)
  {
    s[..StrLen(s)]
  }

  /** Reading the quoted text of `t`: everything up to its first double quote. */
  lemma ReadsUpToQuote(t: seq<byte>, n: nat, list: seq<seq<byte>>)
    requires n > Turns(t) && QuoteIsFree(list)
    ensures var g := Got([QUOTE] + Escaped(t) + [QUOTE], 0, n, list);
            g.Thing? && g.token == DoubleQuoted && g.word == UpToQuote(t)
  {
    var u := UpToQuote(t);
    var text := [QUOTE] + Escaped(t) + [QUOTE];
    var more := QuoteFollows(t);
    Assoc([QUOTE], Escaped(t), [QUOTE]);
    TurnsOfPart(t, |u|);
    ScanStops(text, u, more, n, list);
  }

  lemma ScanStops(text: seq<byte>, u: seq<byte>, more: seq<byte>, n: nat, list: seq<seq<byte>>)
    requires QUOTE !in u && n > Turns(u) && QuoteIsFree(list)
    requires text == [QUOTE] + (Escaped(u) + more) && more != [] && more[0] == QUOTE
    ensures Scan(text, 1, n, QUOTE, list, false, []) == Scanned(2 + |Escaped(u)|, u)
    ensures FirstToken(text, 0, list, 0) == |list|
  {
    assert text[1..] == Escaped(u) + more && text[0] == QUOTE;
    AllRead(text, 1, u, more, n, list, []);
    assert [] + u == u;
  }

  /** Printing a value between quotes and reading it with the tokenizer gives the value back, as a C
      string, exactly when it has neither a double quote nor a zero in it. */
  lemma QuotedReadsBackExactly(s: seq<byte>, n: nat)
    requires Enough(Trimmed(s), 0, QUOTED_CAPACITY) && n > Turns(Trimmed(s))
    ensures TokenList(TOKENS)
    ensures var g := Got(Quoted(s), 0, n, TOKENS);
            && g.Thing? && g.token == DoubleQuoted
            && (CString(g.word) == s <==> QUOTE !in s && 0 !in s)
  {
    var t := Trimmed(s);
    PrintsAllExactly(s, QUOTED_CAPACITY);
    TokensAreGood();
    ReadsUpToQuote(t, n, TOKENS);
    CutAtQuote(s);
  }

  lemma CutAtQuote(s: seq<byte>)
    ensures CString(UpToQuote(Trimmed(s))) == s <==> QUOTE !in s && 0 !in s
  {
    var t := Trimmed(s);
    var u := UpToQuote(t);
    if QUOTE !in s && 0 !in s {
      assert u == t == s;
      assert StrLen(u) == |u|;
    } else if QUOTE in s && 0 !in s {
      assert t == s && |u| < |s|;
    }
  }

  // ---------------------------------------------------------------- special tokens and bare words

  /** A token of one octet comes behind every longer one that begins with it. */
  predicate LongerFirst(list: seq<seq<byte>>)
  {
    && TokenList(list)
    && forall i, j :: 0 <= i < j < |list| && |list[i]| == 1 && |list[j]| == 2 ==> list[i][0] != list[j][0]
  }

  lemma TableInOrder()
    ensures LongerFirst(TOKENS)
  {
    forall i, j | 0 <= i < j < |TOKENS| && |TOKENS[i]| == 1 && |TOKENS[j]| == 2 ensures TOKENS[i][0] != TOKENS[j][0] {
      Singles(i);
      Doubles(j);
    }
  }

  lemma Singles(i: nat)
    requires i < |TOKENS| && |TOKENS[i]| == 1
    ensures i < 13 ==> TOKENS[i][0] in {123, 125, 40, 41, 44}
    ensures 13 <= i < 17 ==> TOKENS[i][0] == if i == 13 then 61 else 62
    ensures 13 <= i < 17 ==> i == 13 || i == 16
  {
  }

  lemma Doubles(j: nat)
    requires j < |TOKENS| && |TOKENS[j]| == 2
    ensures j < 13 ==> TOKENS[j][0] in {61, 33, 43, 45, 58}
    ensures 13 <= j ==> j < 18 && TOKENS[j][0] == if j == 14 then 33 else if j == 15 then 62 else 60
  {
  }

  /** The order of the table makes the first match the longest one. */
  lemma FirstIsLongest(text: seq<byte>, p: nat, list: seq<seq<byte>>, j: nat)
    requires LongerFirst(list) && j < |list| && TokenAt(text, p, list[j])
    ensures var i := FirstToken(text, p, list, 0);
            i < |list| && TokenAt(text, p, list[i]) && |list[j]| <= |list[i]|
  {
    var i := FirstToken(text, p, list, 0);
    assert i <= j;
  }

  /** An octet that stands for itself in a bare word: no space, no backslash, not the start of a token. */
  predicate Plain(c: byte, list: seq<seq<byte>>)
  {
    c != 0 && !IsSpace(c) && c != BACKSLASH && forall i :: 0 <= i < |list| && list[i] != [] ==> list[i][0] != c
  }

  predicate AllPlain(s: seq<byte>, list: seq<seq<byte>>)
  {
    forall i :: 0 <= i < |s| ==> Plain(s[i], list)
  }

  /** The end of a bare word: the end of the text, a space or a special token. */
  predicate Stops(text: seq<byte>, p: nat, list: seq<seq<byte>>)
  {
    p == |text| || (p < |text| && text[p] != BACKSLASH && Ends(text, p, 0, list))
  }

  lemma {:induction false} BareScan(text: seq<byte>, p: nat, s: seq<byte>, n: nat, list: seq<seq<byte>>,
                                    word: seq<byte>)
    requires AllPlain(s, list) && n > |s| && p + |s| <= |text| && text[p..p + |s|] == s && Stops(text, p + |s|, list)
    ensures Scan(text, p, n, 0, list, false, word) == Scanned(p + |s|, word + s)
    decreases |s|
  {
    if s == [] {
      assert word + s == word;
    } else {
      assert text[p] == text[p..p + |s|][0] == s[0];
      assert text[p + 1..p + 1 + |s[1..]|] == text[p..p + |s|][1..] == s[1..];
      assert word + s == word + [s[0]] + s[1..];
      NoTokenStarts(text, p, list);
      BareScan(text, p + 1, s[1..], n - 1, list, word + [s[0]]);
    }
  }

  lemma NoTokenStarts(text: seq<byte>, p: nat, list: seq<seq<byte>>)
    requires p < |text| && Plain(text[p], list)
    ensures FirstToken(text, p, list, 0) == |list|
  {
  }

  lemma {:induction false} QuotedScan(text: seq<byte>, p: nat, s: seq<byte>, n: nat, quote: byte, list: seq<seq<byte>>,
                                      word: seq<byte>)
    requires quote != 0 && quote !in s && BACKSLASH !in s && quote != BACKSLASH && n > |s|
    requires p + |s| < |text| && text[p..p + |s|] == s && text[p + |s|] == quote
    ensures Scan(text, p, n, quote, list, false, word) == Scanned(p + |s| + 1, word + s)
    decreases |s|
  {
    if s == [] {
      assert word + s == word;
    } else {
      assert text[p] == text[p..p + |s|][0] == s[0];
      assert text[p + 1..p + 1 + |s[1..]|] == text[p..p + |s|][1..] == s[1..];
      assert word + s == word + [s[0]] + s[1..];
      QuotedScan(text, p + 1, s[1..], n - 1, quote, list, word + [s[0]]);
    }
  }

  /** Text between two quotes of one of the three kinds, with neither that quote nor a backslash in it, is read as it
      is, spaces and special tokens too, and the kind of token says which quote it was. */
  lemma QuotedWordReads(text: seq<byte>, s: seq<byte>, n: nat, quote: byte, list: seq<seq<byte>>)
    requires TokenList(list) && forall i :: 0 <= i < |list| ==> list[i][0] != quote
    requires quote as char in {'"', '\'', '`'} && quote !in s && BACKSLASH !in s && n > |s|
    requires |s| + 2 <= |text| && text[..|s| + 2] == [quote] + s + [quote]
    ensures Got(text, 0, n, list)
         == Thing(if quote as char == '"' then DoubleQuoted else if quote as char == '`' then BackQuoted
                  else SingleQuoted, SkipSpace(text, |s| + 2), s)
  {
    assert text[0] == text[..|s| + 2][0] && text[|s| + 1] == text[..|s| + 2][|s| + 1];
    assert text[1..1 + |s|] == text[..|s| + 2][1..1 + |s|] == s;
    assert FirstToken(text, 0, list, 0) == |list|;
    QuotedScan(text, 1, s, n, quote, list, []);
    assert [] + s == s;
  }

  /** No special token begins with a quote. */
  lemma QuotesAreFree(i: nat)
    requires i < |TOKENS|
    ensures TOKENS[i] != [] && TOKENS[i][0] as char !in {'"', '\'', '`'}
  {
  }

  /** A word of plain octets that does not begin with a quote is read as itself, up to the next space or
      special token, which is left for the next call. */
  lemma BareWordReads(text: seq<byte>, s: seq<byte>, n: nat, list: seq<seq<byte>>)
    requires TokenList(list) && s != [] && AllPlain(s, list) && s[0] !in {QUOTE, 39, 96}
    requires |s| <= |text| && text[..|s|] == s && n > |s|
    requires |s| == |text| || (text[|s|] != BACKSLASH && Ends(text, |s|, 0, list))
    ensures Got(text, 0, n, list) == Thing(BareWord, SkipSpace(text, |s|), s)
  {
    assert text[0] == text[..|s|][0] && text[0..0 + |s|] == text[..|s|];
    NoTokenStarts(text, 0, list);
    BareScan(text, 0, s, n, list, []);
    assert [] + s == s;
  }
}
