/** How file lists write and read names: plain when every character is printable, otherwise quoted with
    escapes. Text is a sequence of byte values; its end plays the part of the terminating zero. */
module FileNames {
  type Char = c: int | 1 <= c < 256 witness 1

  type Text = seq<Char>

  predicate IsBlank(c: Char) { c == 32 || c == 9 }

  /** Printable and not a space: may stand unquoted. */
  predicate IsPlain(c: Char) { 32 < c <= 126 }

  ghost predicate AllPlain(s: Text) { s != [] && forall i :: 0 <= i < |s| ==> IsPlain(s[i]) }

  // ---- quoting ----

  function HexDigit(h: nat): Char
    requires h < 16
  {
    if h < 10 then 48 + h else 97 + h - 10
  }

  function FromHex(c: int): int
  {
    if 48 <= c <= 57 then c - 48
    else if 65 <= c <= 70 then c - 65 + 10
    else if 97 <= c <= 102 then c - 97 + 10
    else -1
  }

  lemma HexBack(h: nat)
    requires h < 16
    ensures FromHex(HexDigit(h)) == h
  {
  }

  /** One character inside quotes. */
  function Escaped(c: Char): (e: Text)
    ensures |e| >= 1
  {
    if c < 32 || c == 127 then [92, 120, HexDigit(c / 16), HexDigit(c % 16)]
    else if c == 92 || c == 34 then [92, c]
    else [c]
  }

  function EscapedAll(s: Text): Text { if s == [] then [] else EscapedAll(s[..|s| - 1]) + Escaped(s[|s| - 1]) }

  ghost function Quoted(s: Text): Text { if AllPlain(s) then s else [34] + EscapedAll(s) + [34] }

  method QuotedStr(s: Text) returns (q: Text)
    ensures q == Quoted(s)
  {
    var plain := s != [];
    var i := 0;
    while i < |s| && plain
      invariant i <= |s| && (plain ==> s != [] && forall j :: 0 <= j < i ==> IsPlain(s[j]))
      invariant !plain ==> !AllPlain(s)
    {
      if !IsPlain(s[i]) {
        plain := false;
      }
      i := i + 1;
    }
    if plain {
      return s;
    }
    q := [34];
    i := 0;
    while i < |s|
      invariant i <= |s| && q == [34] + EscapedAll(s[..i])
    {
      assert s[..i + 1][..i] == s[..i];
      q := q + Escaped(s[i]);
      i := i + 1;
    }
    assert s[..|s|] == s;
    q := q + [34];
  }

  // ---- parsing ----

  /** What the buffer receives; an escape can put a zero in it. */
  type Byte = c: int | 0 <= c < 256

  datatype Parsed = Failed | Name(name: seq<Byte>, rest: Text)

  /** The body of a quoted name, after the opening quote; `room` is what the buffer still holds. */
  function Unquote(p: Text, room: nat): (r: Parsed)
    decreases |p|, 0
  {
    if p == [] || p[0] == 10 then Failed
    else if p[0] == 34 then Name([], p[1..])
    else
      var u := Unescape(p);
      if u.Bad? then Failed else Put(u.c, p[u.width..], room)
  }

  datatype Unescaped = Bad | One(c: Byte, width: nat)

  /** The next character of a quoted name and how much of the text it takes. */
  function Unescape(p: Text): (u: Unescaped)
    requires p != []
    ensures u.One? ==> 1 <= u.width <= |p|
  {
    if p[0] != 92 then One(p[0], 1)
    else if |p| < 2 then Bad
    else if p[1] == 39 || p[1] == 34 || p[1] == 92 then One(p[1], 2)
    else if p[1] == 110 then One(10, 2)
    else if p[1] == 114 then One(13, 2)
    else if p[1] == 116 then One(9, 2)
    else if p[1] == 120 && |p| >= 4 && FromHex(p[2]) >= 0 && FromHex(p[3]) >= 0 then
      One(FromHex(p[2]) * 16 + FromHex(p[3]), 4)
    else Bad
  }

  function Put(c: Byte, p: Text, room: nat): Parsed
    decreases |p|, 1
  {
    if room == 0 then Failed else Prepend([c], Unquote(p, room - 1))
  }

  function Prepend(q: seq<Byte>, r: Parsed): Parsed { if r.Failed? then r else Name(q + r.name, r.rest) }

  /** An unquoted name ends before a blank, a line end or the end. */
  predicate Ends(p: Text) { p == [] || IsBlank(p[0]) || p[0] == 10 }

  function TakePlain(p: Text, room: nat): Parsed
    decreases |p|
  {
    if Ends(p) then Name([], p)
    else if room == 0 then Failed
    else Prepend([p[0]], TakePlain(p[1..], room - 1))
  }

  function SkipBlanks(p: Text): Text
    decreases |p|
  {
    if p != [] && IsBlank(p[0]) then SkipBlanks(p[1..]) else p
  }

  function Parse(p: Text, bufSize: nat): Parsed
    requires bufSize > 0
  {
    var p1 := SkipBlanks(p);
    if p1 == [] then Failed
    else if p1[0] == 34 then Unquote(p1[1..], bufSize - 1)
    else TakePlain(p1, bufSize - 1)
  }

  /** Reads one name into a buffer of `bufSize` bytes, its terminating zero included. */
  method ParseFname(text: Text, bufSize: nat) returns (r: Parsed)
    requires bufSize > 0
    ensures r == Parse(text, bufSize)
  {
    var p, q: seq<Byte> := text, [];
    while p != [] && IsBlank(p[0])
      invariant SkipBlanks(p) == SkipBlanks(text)
      decreases |p|
    {
      p := p[1..];
    }
    if p == [] {
      return Failed;
    }
    if p[0] == 34 {
      p := p[1..];
      ghost var p0 := p;
      while true
        invariant |q| <= bufSize - 1 && Unquote(p0, bufSize - 1) == Prepend(q, Unquote(p, bufSize - 1 - |q|))
        decreases |p|
      {
        if p == [] || p[0] == 10 {
          return Failed;
        }
        if p[0] == 34 {
          p := p[1..];
          break;
        }
        var u := Unescape(p);
        if u.Bad? || |q| >= bufSize - 1 {
          return Failed;
        }
        PrependTwo(q, [u.c], Unquote(p[u.width..], bufSize - 1 - |q| - 1));
        q, p := q + [u.c], p[u.width..];
      }
    } else {
      ghost var p0 := p;
      while !Ends(p)
        invariant |q| <= bufSize - 1 && TakePlain(p0, bufSize - 1) == Prepend(q, TakePlain(p, bufSize - 1 - |q|))
        decreases |p|
      {
        if |q| >= bufSize - 1 {
          return Failed;
        }
        PrependTwo(q, [p[0]], TakePlain(p[1..], bufSize - 1 - |q| - 1));
        q, p := q + [p[0]], p[1..];
      }
    }
    return Name(q, p);
  }

  lemma PrependTwo(q: seq<Byte>, c: seq<Byte>, r: Parsed)
    ensures Prepend(q + c, r) == Prepend(q, Prepend(c, r))
  {
    if r.Name? {
      assert q + c + r.name == q + (c + r.name);
    }
  }

  // ---- the round trip ----

  lemma {:induction false} EscapedFront(s: Text)
    requires s != []
    ensures EscapedAll(s) == Escaped(s[0]) + EscapedAll(s[1..])
  {
    if |s| > 1 {
      var t := s[..|s| - 1];
      EscapedFront(t);
      assert t[1..] == s[1..][..|s| - 2] && s[1..][|s| - 2] == s[|s| - 1];
    }
  }

  /** Reading back one escaped character. */
  lemma UnescapeEscaped(c: Char, p: Text)
    ensures Unescape(Escaped(c) + p) == One(c, |Escaped(c)|) && (Escaped(c) + p)[|Escaped(c)|..] == p
    ensures (Escaped(c) + p)[0] != 34 && (Escaped(c) + p)[0] != 10
  {
    HexBack(c / 16);
    HexBack(c % 16);
  }

  lemma {:induction false} UnquoteEscaped(s: Text, rest: Text, room: nat)
    requires |s| <= room
    ensures Unquote(EscapedAll(s) + [34] + rest, room) == Name(s, rest)
    decreases |s|
  {
    hide Escaped, Unescape;
    if s == [] {
      assert EscapedAll(s) + [34] + rest == [34] + rest;
      assert ([34] + rest)[1..] == rest;
    } else {
      var e, all := Escaped(s[0]), EscapedAll(s[1..]);
      EscapedFront(s);
      hide EscapedAll;
      var tail := all + [34] + rest;
      assert e + all + [34] + rest == e + tail;
      UnescapeEscaped(s[0], tail);
      UnquoteEscaped(s[1..], rest, room - 1);
      assert s == [s[0]] + s[1..];
    }
  }

  lemma {:induction false} TakePlainBack(s: Text, rest: Text, room: nat)
    requires |s| <= room && Ends(rest) && forall i :: 0 <= i < |s| ==> IsPlain(s[i])
    ensures TakePlain(s + rest, room) == Name(s, rest)
    decreases |s|
  {
    if s == [] {
      assert s + rest == rest;
    } else {
      assert (s + rest)[1..] == s[1..] + rest;
      TakePlainBack(s[1..], rest, room - 1);
      assert s == [s[0]] + s[1..];
    }
  }

  /** Reading what was written gives the name back, with the cursor just after it, unless the name is written
      plain and starts with a quote. A plain name needs a blank or line end after it; a quoted one does not. */
  lemma RoundTrip(s: Text, rest: Text, bufSize: nat)
    requires |s| < bufSize && (AllPlain(s) ==> Ends(rest) && s[0] != 34)
    ensures Parse(Quoted(s) + rest, bufSize) == Name(s, rest)
  {
    hide Unquote, TakePlain, EscapedAll;
    var p := Quoted(s) + rest;
    assert SkipBlanks(p) == p;
    hide SkipBlanks;
    if AllPlain(s) {
      TakePlainBack(s, rest, bufSize - 1);
    } else {
      assert p[1..] == EscapedAll(s) + [34] + rest;
      UnquoteEscaped(s, rest, bufSize - 1);
    }
  }

  /** What is unquoted, and what is left, are shorter than the text; the name fits the buffer. */
  lemma {:induction false} UnquoteShorter(p: Text, room: nat)
    ensures var r := Unquote(p, room); r.Name? ==> |r.name| + |r.rest| < |p| && |r.name| <= room
    decreases |p|
  {
    if p != [] && p[0] != 10 && p[0] != 34 {
      var u := Unescape(p);
      if u.One? && room > 0 {
        UnquoteShorter(p[u.width..], room - 1);
      }
    }
  }

  lemma {:induction false} PlainFits(p: Text, room: nat)
    ensures var r := TakePlain(p, room); r.Name? ==> |r.name| <= room
    decreases |p|
  {
    if !Ends(p) && room > 0 {
      PlainFits(p[1..], room - 1);
    }
  }

  /** A name that a blank or a line end follows is read back if and only if it fits the buffer and is not written
      plain with a quote first. */
  lemma ReadBackIff(s: Text, rest: Text, bufSize: nat)
    requires bufSize > 0 && Ends(rest)
    ensures Parse(Quoted(s) + rest, bufSize) == Name(s, rest) <==> |s| < bufSize && !(AllPlain(s) && s[0] == 34)
  {
    hide Unquote, TakePlain, EscapedAll;
    var p := Quoted(s) + rest;
    assert SkipBlanks(p) == p;
    hide SkipBlanks;
    if |s| < bufSize && !(AllPlain(s) && s[0] == 34) {
      RoundTrip(s, rest, bufSize);
    } else {
      UnquoteShorter(p[1..], bufSize - 1);
      PlainFits(p, bufSize - 1);
    }
  }

  /** A name that is a quote and a letter, on a line of its own: it is printed as it is, and reading it fails. */
  lemma QuoteFirst()
    ensures Quoted([34, 97]) == [34, 97] && Parse(Quoted([34, 97]) + [10], 1024) == Failed
  {
    assert Quoted([34, 97]) == [34, 97];
    assert ([34, 97] + [10])[1..] == [97, 10] && [97, 10][1..] == [10];
    assert Unquote([10], 1022) == Failed;
    assert Unescape([97, 10]) == One(97, 1);
  }
}
