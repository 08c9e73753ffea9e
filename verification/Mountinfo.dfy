/**
 The mount table: what the kernel prints, what the guard reads back, and which mounts it
 keeps the walker out of. A string is the sequence of its bytes, one character below 256 each.
 */
module Mountinfo {
  import opened Options
  import opened Text

  predicate Bytes(s: string)
  {
    forall i :: 0 <= i < |s| ==> s[i] < '\U{100}'
  }

  // ------------------------------------------------------------------------------
  // Octal escapes
  // ------------------------------------------------------------------------------

  predicate IsOctal(c: char)
  {
    '0' <= c <= '7'
  }

  /** Three octal digits that make one byte. */
  function Octal(a: char, b: char, c: char): (r: Option<nat>)
    ensures r.Some? ==> r.value <= 255
  {
    if IsOctal(a) && IsOctal(b) && IsOctal(c) then
      var n := 64 * (a - '0') as nat + 8 * (b - '0') as nat + (c - '0') as nat;
      if n <= 255 then Some(n) else None
    else None
  }

  /** Whether the bytes start with an escape; if so they stand for the byte it names. */
  function EscapeAt(s: string): (r: Option<nat>)
    ensures r.Some? ==> |s| > 3 && r.value <= 255
  {
    if |s| > 3 && s[0] == '\\' then Octal(s[1], s[2], s[3]) else None
  }

  function Unescaped(s: string): string
  {
    if s == "" then ""
    else if EscapeAt(s).Some? then [EscapeAt(s).value as char] + Unescaped(s[4..])
    else [s[0]] + Unescaped(s[1..])
  }

  /** One step of the decoder, at position `i`. */
  lemma UnescapedFrom(s: string, i: nat)
    requires i < |s|
    ensures var v := if s[i] == '\\' && i + 3 < |s| then Octal(s[i + 1], s[i + 2], s[i + 3]) else None;
            Unescaped(s[i..]) == if v.Some? then [v.value as char] + Unescaped(s[i + 4..]) else [s[i]] + Unescaped(s[i + 1..])
  {
    hide Octal;
    var rest := s[i..];
    assert rest[1..] == s[i + 1..];
    assert |rest| > 3 ==> rest[4..] == s[i + 4..];
  }

  lemma UnescapedEnd(s: string)
    requires |s| == 0
    ensures Unescaped(s) == ""
  {
  }

  method Unescape(s: string) returns (out: string)
    ensures out == Unescaped(s)
  {
    if '\\' !in s {
      NothingToUnescape(s);
      return s;
    }
    hide Octal, Unescaped;
    out := "";
    var i := 0;
    assert s[0..] == s;
    while i < |s|
      invariant 0 <= i <= |s|
      invariant out + Unescaped(s[i..]) == Unescaped(s)
    {
      UnescapedFrom(s, i);
      if s[i] == '\\' && i + 3 < |s| {
        var v := Octal(s[i + 1], s[i + 2], s[i + 3]);
        if v.Some? {
          assert out + ([v.value as char] + Unescaped(s[i + 4..])) == out + [v.value as char] + Unescaped(s[i + 4..]);
          out := out + [v.value as char];
          i := i + 4;
          continue;
        }
      }
      assert out + ([s[i]] + Unescaped(s[i + 1..])) == out + [s[i]] + Unescaped(s[i + 1..]);
      out := out + [s[i]];
      i := i + 1;
    }
    UnescapedEnd(s[i..]);
  }

  lemma {:induction false} NothingToUnescape(s: string)
    requires '\\' !in s
    ensures Unescaped(s) == s
  {
    if s != "" {
      NothingToUnescape(s[1..]);
      assert s == [s[0]] + s[1..];
    }
  }

  /** The characters the kernel escapes: always these four, in some fields `#` as well. */
  predicate KernelEscapes(esc: set<char>)
  {
    {' ', '\t', '\n', '\\'} <= esc <= {' ', '\t', '\n', '\\', '#'}
  }

  function Digit(n: nat): char
    requires n < 10
  {
    '0' + n as char
  }

  function EscapedChar(esc: set<char>, c: char): string
    requires c < '\U{100}'
  {
    if c in esc then
      var n := c as nat;
      ['\\', Digit(n / 64), Digit(n / 8 % 8), Digit(n % 8)]
    else [c]
  }

  function Escaped(esc: set<char>, s: string): (r: string)
    requires Bytes(s)
    ensures |r| >= |s|
  {
    if s == "" then ""
    else
      EscapedChar(esc, s[0]) + Escaped(esc, s[1..])
  }

  lemma OctalDigits(n: nat)
    requires n <= 255
    ensures Octal(Digit(n / 64), Digit(n / 8 % 8), Digit(n % 8)) == Some(n)
  {
  }

  lemma UnescapeOne(esc: set<char>, c: char, rest: string)
    requires '\\' in esc && c < '\U{100}'
    ensures Unescaped(EscapedChar(esc, c) + rest) == [c] + Unescaped(rest)
  {
    hide Octal, Digit;
    var s := EscapedChar(esc, c) + rest;
    if c in esc {
      OctalDigits(c as nat);
      assert s[4..] == rest;
    } else {
      assert s[1..] == rest;
    }
  }

  /** Decoding restores every path, whatever characters are escaped besides the backslash. */
  lemma {:induction false} UnescapeUndoesEscape(esc: set<char>, s: string)
    requires '\\' in esc && Bytes(s)
    ensures Unescaped(Escaped(esc, s)) == s
  {
    hide Unescaped, EscapedChar;
    if s == "" {
      UnescapedEnd("");
    } else {
      UnescapeUndoesEscape(esc, s[1..]);
      UnescapeOne(esc, s[0], Escaped(esc, s[1..]));
      assert s == [s[0]] + s[1..];
    }
  }

  // ------------------------------------------------------------------------------
  // Fields
  // ------------------------------------------------------------------------------

  /**
   The length of the white-space character the bytes start with, 0 if they start with none:
   the six of ASCII, and the UTF-8 forms of the other Unicode spaces. No such form can begin
   in the middle of another character, so looking at every byte finds what decoding finds.
   */
  function SpaceWidth(s: string): (n: nat)
    ensures n <= |s|
  {
    if s == "" then 0
    else if s[0] == ' ' || '\t' <= s[0] <= '\r' then 1
    else if |s| >= 2 && s[0] == '\U{C2}' && (s[1] == '\U{85}' || s[1] == '\U{A0}') then 2
    else if |s| >= 3 && IsWideSpace(s[0], s[1], s[2]) then 3
    else 0
  }

  predicate IsWideSpace(a: char, b: char, c: char)
  {
    || (a == '\U{E1}' && b == '\U{9A}' && c == '\U{80}')
    || (a == '\U{E2}' && b == '\U{80}' && ('\U{80}' <= c <= '\U{8A}' || c in {'\U{A8}', '\U{A9}', '\U{AF}'}))
    || (a == '\U{E2}' && b == '\U{81}' && c == '\U{9F}')
    || (a == '\U{E3}' && b == '\U{80}' && c == '\U{80}')
  }

  function Closed(word: string): seq<string>
  {
    if word == "" then [] else [word]
  }

  /** The fields of `word + s`, where `word` is the part of the current field already seen. */
  function FieldsFrom(word: string, s: string): seq<string>
    decreases |s|
  {
    if s == "" then Closed(word)
    else if SpaceWidth(s) > 0 then Closed(word) + FieldsFrom("", s[SpaceWidth(s)..])
    else FieldsFrom(word + [s[0]], s[1..])
  }

  function Fields(s: string): seq<string>
  {
    FieldsFrom("", s)
  }

  /** No white space anywhere. */
  predicate Clean(s: string)
  {
    s == "" || (SpaceWidth(s) == 0 && Clean(s[1..]))
  }

  predicate Word(s: string)
  {
    s != "" && Clean(s)
  }

  /** White space does not depend on what comes after, unless that continues a character. */
  lemma WidthIsLocal(w: string, tail: string)
    requires w != "" && (tail == "" || SpaceWidth(tail) > 0)
    ensures SpaceWidth(w + tail) == SpaceWidth(w)
  {
    var s := w + tail;
    assert s[0] == w[0];
    if |w| == 1 {
      assert tail != "" ==> s[1] == tail[0];
    } else {
      assert s[1] == w[1];
      assert |w| == 2 && tail != "" ==> s[2] == tail[0];
    }
  }

  lemma {:induction false} FieldsOfWord(word: string, w: string, tail: string)
    requires Clean(w) && (tail == "" || SpaceWidth(tail) > 0)
    ensures FieldsFrom(word, w + tail) == FieldsFrom(word + w, tail)
    decreases |w|
  {
    hide SpaceWidth;
    if w == "" {
      assert w + tail == tail && word + w == word;
    } else {
      WidthIsLocal(w, tail);
      FieldsOfWord(word + [w[0]], w[1..], tail);
      FirstOfConcat(w, tail);
      MoveFirst(word, w);
    }
  }

  lemma FieldsFirst(w: string, rest: string)
    requires Word(w)
    ensures Fields(w + " " + rest) == [w] + Fields(rest)
  {
    var tail := " " + rest;
    FieldsOfWord("", w, tail);
    assert w + " " + rest == w + tail && "" + w == w;
    assert tail[1..] == rest;
  }

  function Joined(words: seq<string>): string
  {
    if words == [] then "" else if |words| == 1 then words[0] else words[0] + " " + Joined(words[1..])
  }

  function Nonempty(words: seq<string>): seq<string>
  {
    if words == [] then [] else Closed(words[0]) + Nonempty(words[1..])
  }

  lemma {:induction false} NonemptyWords(words: seq<string>)
    requires forall i :: 0 <= i < |words| ==> words[i] != ""
    ensures Nonempty(words) == words
  {
    if words != [] {
      NonemptyWords(words[1..]);
      assert words == [words[0]] + words[1..];
    }
  }

  lemma {:induction false} NonemptyConcat(a: seq<string>, b: seq<string>)
    ensures Nonempty(a + b) == Nonempty(a) + Nonempty(b)
  {
    hide Closed;
    if a == [] {
      assert a + b == b;
    } else {
      NonemptyConcat(a[1..], b);
      assert (a + b)[1..] == a[1..] + b && (a + b)[0] == a[0];
    }
  }

  /** Blanks only separate: of a line of words an empty one leaves no trace. */
  lemma {:induction false} FieldsOfJoined(words: seq<string>)
    requires forall i :: 0 <= i < |words| ==> Clean(words[i])
    ensures Fields(Joined(words)) == Nonempty(words)
  {
    if |words| == 1 {
      FieldsOfWord("", words[0], "");
      assert words[0] + "" == words[0] && "" + words[0] == words[0];
      assert Nonempty(words[1..]) == [];
    } else if words != [] {
      FieldsOfJoined(words[1..]);
      if words[0] == "" {
        var rest := " " + Joined(words[1..]);
        assert words[0] + " " + Joined(words[1..]) == rest;
        assert rest[1..] == Joined(words[1..]);
      } else {
        FieldsFirst(words[0], Joined(words[1..]));
      }
    }
  }

  // ------------------------------------------------------------------------------
  // What escaping protects
  // ------------------------------------------------------------------------------

  /** Every white space in the path is one that gets escaped. */
  predicate Unbroken(esc: set<char>, s: string)
  {
    s == "" || ((SpaceWidth(s) == 0 || s[0] in esc) && Unbroken(esc, s[1..]))
  }

  /** Escapes are no white space, and what is not escaped is white space after as before. */
  lemma WidthOfEscaped(esc: set<char>, s: string)
    requires KernelEscapes(esc) && Bytes(s) && s != ""
    ensures SpaceWidth(Escaped(esc, s)) == if s[0] in esc then 0 else SpaceWidth(s)
  {
    EscapedHead(esc, s);
    if |s| > 1 {
      EscapedHead(esc, s[1..]);
      if |s| > 2 {
        EscapedHead(esc, s[2..]);
        assert s[1..][1..] == s[2..];
      }
    }
    var e := Escaped(esc, s);
    if s[0] !in esc {
      assert |s| == 1 ==> e[1..] == "";
      assert |s| > 1 ==> e[1] == Escaped(esc, s[1..])[0];
      assert |s| == 2 && s[1] !in esc ==> Escaped(esc, s[1..])[1..] == "" && |e| == 2;
      assert |s| > 2 && s[1] !in esc ==> e[2] == Escaped(esc, s[1..])[1] == Escaped(esc, s[2..])[0];
      hide Escaped;
      SameWidth(s, e);
    }
  }

  /** Width looks no further than the first byte that is ASCII. */
  lemma SameWidth(s: string, e: string)
    requires s != "" && e != "" && s[0] == e[0]
    requires |s| > 1 <==> |e| > 1
    requires |s| > 1 ==> s[1] == e[1] || (s[1] < '\U{80}' && e[1] < '\U{80}')
    requires |s| > 1 && s[1] == e[1] && s[1] >= '\U{80}' ==> (|s| > 2 <==> |e| > 2)
    requires |s| > 2 && |e| > 2 && s[1] == e[1] && s[1] >= '\U{80}' ==> s[2] == e[2] || (s[2] < '\U{80}' && e[2] < '\U{80}')
    ensures SpaceWidth(e) == SpaceWidth(s)
  {
  }

  lemma EscapedHead(esc: set<char>, s: string)
    requires Bytes(s) && s != ""
    ensures Escaped(esc, s)[0] == if s[0] in esc then '\\' else s[0]
    ensures s[0] !in esc ==> Escaped(esc, s)[1..] == Escaped(esc, s[1..])
  {
  }

  lemma CleanAfter(c: char, rest: string)
    requires c == '\\' || IsOctal(c)
    ensures Clean([c] + rest) <==> Clean(rest)
  {
    assert ([c] + rest)[1..] == rest;
  }

  lemma DigitsAreClean(a: char, b: char, c: char, rest: string)
    requires IsOctal(a) && IsOctal(b) && IsOctal(c)
    ensures Clean(['\\', a, b, c] + rest) <==> Clean(rest)
  {
    CleanAfter(c, rest);
    CleanAfter(b, [c] + rest);
    CleanAfter(a, [b] + ([c] + rest));
    CleanAfter('\\', [a] + ([b] + ([c] + rest)));
    assert ['\\', a, b, c] + rest == ['\\'] + ([a] + ([b] + ([c] + rest)));
  }

  lemma {:induction false} EscapedIsClean(esc: set<char>, s: string)
    requires KernelEscapes(esc) && Bytes(s)
    ensures Clean(Escaped(esc, s)) <==> Unbroken(esc, s)
  {
    if s != "" {
      var e, rest := Escaped(esc, s), Escaped(esc, s[1..]);
      EscapedIsClean(esc, s[1..]);
      WidthOfEscaped(esc, s);
      if s[0] in esc {
        var n := s[0] as nat;
        DigitsAreClean(Digit(n / 64), Digit(n / 8 % 8), Digit(n % 8), rest);
      } else {
        assert e[1..] == rest;
      }
    }
  }

  // ------------------------------------------------------------------------------
  // Numbers
  // ------------------------------------------------------------------------------

  predicate IsDigit(c: char)
  {
    '0' <= c <= '9'
  }

  function NumberOf(s: string): Option<nat>
  {
    if s == "" then Some(0)
    else
      var k := |s| - 1;
      var front := NumberOf(s[..k]);
      if front.None? || !IsDigit(s[k]) then None else Some(10 * front.value + (s[k] - '0') as nat)
  }

  /** An unsigned decimal of 32 bits; no sign, no empty number. */
  function ParseUint32(s: string): Option<nat>
  {
    if s == "" || NumberOf(s).None? || NumberOf(s).value >= 0x1_0000_0000 then None else NumberOf(s)
  }

  function Decimal(n: nat): (s: string)
    ensures s != "" && forall i :: 0 <= i < |s| ==> IsDigit(s[i])
  {
    if n < 10 then [Digit(n)] else Decimal(n / 10) + [Digit(n % 10)]
  }

  lemma {:induction false} DecimalReadsBack(n: nat)
    ensures NumberOf(Decimal(n)) == Some(n)
  {
    if n < 10 {
      assert Decimal(n)[..0] == "";
    } else {
      DecimalReadsBack(n / 10);
      assert Decimal(n)[..|Decimal(n)| - 1] == Decimal(n / 10);
    }
  }

  /** The part before the first colon and the part after it. */
  function Cut(s: string): (r: Option<(string, string)>)
  {
    if s == "" then None
    else if s[0] == ':' then Some(("", s[1..]))
    else
      var r := Cut(s[1..]);
      if r.None? then None else Some(([s[0]] + r.value.0, r.value.1))
  }

  datatype Device = Device(major: nat, minor: nat)

  function ParseDevice(s: string): Option<Device>
  {
    var parts := Cut(s);
    if parts.None? then None
    else
      var a, b := ParseUint32(parts.value.0), ParseUint32(parts.value.1);
      if a.None? || b.None? then None else Some(Device(a.value, b.value))
  }

  function PrintedDevice(d: Device): string
  {
    Decimal(d.major) + ":" + Decimal(d.minor)
  }

  lemma {:induction false} CutDigits(a: string, b: string)
    requires forall i :: 0 <= i < |a| ==> IsDigit(a[i])
    ensures Cut(a + ":" + b) == Some((a, b))
  {
    var s := a + ":" + b;
    if a != "" {
      CutDigits(a[1..], b);
      assert s[1..] == a[1..] + ":" + b;
      assert a == [a[0]] + a[1..];
    } else {
      assert s == ":" + b;
    }
  }

  lemma DeviceReadsBack(d: Device)
    requires d.major < 0x1_0000_0000 && d.minor < 0x1_0000_0000
    ensures ParseDevice(PrintedDevice(d)) == Some(d)
  {
    CutDigits(Decimal(d.major), Decimal(d.minor));
    DecimalReadsBack(d.major);
    DecimalReadsBack(d.minor);
  }

  lemma {:induction false} NumbersAreClean(s: string)
    requires forall i :: 0 <= i < |s| ==> IsDigit(s[i]) || s[i] == ':'
    ensures Clean(s)
  {
    if s != "" {
      NumbersAreClean(s[1..]);
    }
  }

  // ------------------------------------------------------------------------------
  // One record
  // ------------------------------------------------------------------------------

  datatype MountEntry = MountEntry(dev: Device, mountPoint: string, fsType: string, source: string)

  /** The first `-` from position `i` on. */
  function Dash(f: seq<string>, i: nat): (r: Option<nat>)
    ensures r.Some? ==> i <= r.value < |f| && f[r.value] == "-"
    decreases |f| - i
  {
    if i >= |f| then None else if f[i] == "-" then Some(i) else Dash(f, i + 1)
  }

  function Parsed(line: string): Option<MountEntry>
  {
    var f := Fields(line);
    var sep := Dash(f, 6);
    if |f| < 10 || sep.None? || sep.value + 2 >= |f| || ParseDevice(f[2]).None? then None
    else Some(MountEntry(ParseDevice(f[2]).value, Unescaped(f[4]), f[sep.value + 1], Unescaped(f[sep.value + 2])))
  }

  method ParseMountinfoLine(line: string) returns (e: Option<MountEntry>)
    ensures e == Parsed(line)
  {
    var f := Fields(line);
    if |f| < 10 {
      return None;
    }
    var sep := -1;
    var i := 6;
    while i < |f|
      invariant 6 <= i <= |f| && sep == -1
      invariant Dash(f, 6) == Dash(f, i)
    {
      if f[i] == "-" {
        sep := i;
        break;
      }
      i := i + 1;
    }
    if sep < 0 || sep + 2 >= |f| {
      return None;
    }
    var dev := ParseDevice(f[2]);
    if dev.None? {
      return None;
    }
    var mountPoint := Unescape(f[4]);
    var source := Unescape(f[sep + 2]);
    return Some(MountEntry(dev.value, mountPoint, f[sep + 1], source));
  }

  /** A mount as the kernel knows it. */
  datatype Mount = Mount(
    id: nat,
    parent: nat,
    dev: Device,
    root: string,
    mountPoint: string,
    options: string,
    optional: seq<string>,
    fsType: string,
    source: string,
    superOptions: string)

  /** The fields from the options on. */
  function TailFields(esc: set<char>, m: Mount): seq<string>
    requires Bytes(m.fsType) && Bytes(m.source)
  {
    [m.options] + m.optional + ["-", Escaped(esc, m.fsType), Escaped(esc, m.source), m.superOptions]
  }

  function HeadFields(esc: set<char>, m: Mount): (r: seq<string>)
    requires Bytes(m.root)
    ensures |r| == 4
  {
    [Decimal(m.id), Decimal(m.parent), PrintedDevice(m.dev), Escaped(esc, m.root)]
  }

  predicate AllBytes(m: Mount)
  {
    Bytes(m.root) && Bytes(m.mountPoint) && Bytes(m.fsType) && Bytes(m.source)
  }

  function PrintedFields(esc: set<char>, m: Mount): seq<string>
    requires AllBytes(m)
  {
    HeadFields(esc, m) + [Escaped(esc, m.mountPoint)] + TailFields(esc, m)
  }

  function Printed(esc: set<char>, m: Mount): string
    requires AllBytes(m)
  {
    Joined(PrintedFields(esc, m))
  }

  /** Everything but the mount point is printed as one field each. */
  predicate RestPrintable(esc: set<char>, m: Mount)
  {
    && AllBytes(m)
    && m.dev.major < 0x1_0000_0000 && m.dev.minor < 0x1_0000_0000
    && m.root != "" && Unbroken(esc, m.root)
    && m.fsType != "" && Unbroken(esc, m.fsType)
    && Unbroken(esc, m.source)
    && Word(m.options) && Word(m.superOptions)
    && forall i :: 0 <= i < |m.optional| ==> Word(m.optional[i]) && m.optional[i] != "-"
  }

  lemma EscapedIsWord(esc: set<char>, s: string)
    requires KernelEscapes(esc) && Bytes(s) && s != "" && Unbroken(esc, s)
    ensures Word(Escaped(esc, s))
  {
    EscapedIsClean(esc, s);
  }

  lemma HeadIsWords(esc: set<char>, m: Mount)
    requires KernelEscapes(esc) && RestPrintable(esc, m)
    ensures forall i :: 0 <= i < 4 ==> Word(HeadFields(esc, m)[i])
  {
    NumbersAreClean(Decimal(m.id));
    NumbersAreClean(Decimal(m.parent));
    NumbersAreClean(PrintedDevice(m.dev));
    EscapedIsWord(esc, m.root);
  }

  lemma TailIsWords(esc: set<char>, m: Mount)
    requires KernelEscapes(esc) && RestPrintable(esc, m)
    ensures var f := TailFields(esc, m);
            && (forall i :: 0 <= i < |f| ==> Clean(f[i]))
            && (forall i :: 0 <= i < |f| && i != |f| - 2 ==> f[i] != "")
  {
    EscapedIsWord(esc, m.fsType);
    EscapedIsClean(esc, m.source);
    assert Clean("");
    assert Clean("-"[1..]);
    assert Word("-");
  }

  lemma {:induction false} DashFound(f: seq<string>, i: nat, k: nat)
    requires i <= k < |f| && f[k] == "-" && forall j :: i <= j < k ==> f[j] != "-"
    ensures Dash(f, i) == Some(k)
    decreases k - i
  {
    if i < k {
      DashFound(f, i + 1, k);
    }
  }

  lemma RecordIsWords(esc: set<char>, m: Mount)
    requires KernelEscapes(esc) && RestPrintable(esc, m)
    requires m.mountPoint != "" && Unbroken(esc, m.mountPoint)
    ensures var f := PrintedFields(esc, m);
            && (forall i :: 0 <= i < |f| ==> Clean(f[i]))
            && (forall i :: 0 <= i < |f| && i != |f| - 2 ==> f[i] != "")
  {
    hide Clean, Unbroken, HeadFields, TailFields;
    HeadIsWords(esc, m);
    TailIsWords(esc, m);
    EscapedIsWord(esc, m.mountPoint);
  }

  /** Where the fields of a record stand. */
  lemma FieldsAt(esc: set<char>, m: Mount)
    requires AllBytes(m)
    ensures var f, sep := PrintedFields(esc, m), 6 + |m.optional|;
            && |f| == sep + 4
            && f[2] == PrintedDevice(m.dev) && f[4] == Escaped(esc, m.mountPoint)
            && (forall i :: 6 <= i < sep ==> f[i] == m.optional[i - 6])
            && f[sep] == "-" && f[sep + 1] == Escaped(esc, m.fsType) && f[sep + 2] == Escaped(esc, m.source)
            && f[sep + 3] == m.superOptions
  {
    hide Escaped, PrintedDevice;
  }

  /** The printed line has the ten fields the reader asks for: an empty source leaves one field less. */
  predicate Readable(m: Mount)
  {
    m.source != "" || m.optional != []
  }

  /** What the reader takes for the source. */
  function SourceRead(m: Mount): string
  {
    if m.source != "" then m.source else Unescaped(m.superOptions)
  }

  /** The fields of a record as they are read: all that are printed, or all but the empty source. */
  lemma FieldsRead(esc: set<char>, m: Mount)
    requires KernelEscapes(esc) && RestPrintable(esc, m)
    requires m.mountPoint != "" && Unbroken(esc, m.mountPoint)
    ensures var f := PrintedFields(esc, m);
            && |f| >= 2
            && Fields(Printed(esc, m)) == if m.source != "" then f else f[..|f| - 2] + f[|f| - 1..]
  {
    var f := PrintedFields(esc, m);
    RecordIsWords(esc, m);
    FieldsAt(esc, m);
    EscapedIsClean(esc, m.source);
    hide Clean, Fields, Unbroken, Joined, PrintedFields, Nonempty;
    FieldsOfJoined(f);
    if m.source != "" {
      NonemptyWords(f);
    } else {
      OneEmpty(f);
    }
  }

  lemma OneEmpty(f: seq<string>)
    requires |f| >= 2 && f[|f| - 2] == "" && forall i :: 0 <= i < |f| && i != |f| - 2 ==> f[i] != ""
    ensures Nonempty(f) == f[..|f| - 2] + f[|f| - 1..]
  {
    hide Nonempty;
    var front, gap, back := f[..|f| - 2], f[|f| - 2..|f| - 1], f[|f| - 1..];
    NonemptyConcat(front + gap, back);
    NonemptyConcat(front, gap);
    NonemptyWords(front);
    NonemptyWords(back);
    EmptyWord(gap);
    assert f == front + gap + back;
    assert front + [] + back == front + back;
  }

  lemma EmptyWord(gap: seq<string>)
    requires |gap| == 1 && gap[0] == ""
    ensures Nonempty(gap) == []
  {
  }

  /**
   A record with any number of optional fields is read back, device and mount point as they
   were, the type as it was printed, and the source unless it is empty; only a record with an
   empty source and no optional field is not read at all.
   */
  lemma RecordReadsBack(esc: set<char>, m: Mount)
    requires KernelEscapes(esc) && RestPrintable(esc, m)
    requires m.mountPoint != "" && Unbroken(esc, m.mountPoint)
    ensures Parsed(Printed(esc, m)) ==
            if Readable(m) then Some(MountEntry(m.dev, m.mountPoint, Escaped(esc, m.fsType), SourceRead(m))) else None
  {
    var f := PrintedFields(esc, m);
    FieldsRead(esc, m);
    FieldsAt(esc, m);
    hide Clean, Word, Fields, Escaped, Unescaped, Unbroken, ParseDevice, Joined, PrintedDevice, PrintedFields;
    var sep := 6 + |m.optional|;
    DashFound(Fields(Printed(esc, m)), 6, sep);
    DeviceReadsBack(m.dev);
    UnescapeUndoesEscape(esc, m.mountPoint);
    UnescapeUndoesEscape(esc, m.source);
  }

  /** The type comes back as it was exactly when printing it escaped nothing: it is not unescaped. */
  lemma {:induction false} TypeReadsBackExactly(esc: set<char>, t: string)
    requires Bytes(t)
    ensures Escaped(esc, t) == t <==> forall i :: 0 <= i < |t| ==> t[i] !in esc
  {
    if t != "" {
      var e, rest := Escaped(esc, t), Escaped(esc, t[1..]);
      TypeReadsBackExactly(esc, t[1..]);
      if t[0] !in esc {
        assert e[1..] == rest;
        assert t == [t[0]] + t[1..];
        assert forall i :: 1 <= i < |t| ==> t[i] == t[1..][i - 1];
      } else {
        assert |e| > |t|;
      }
    }
  }

  // ------------------------------------------------------------------------------
  // Paths the kernel does not protect
  // ------------------------------------------------------------------------------

  /** Where the first white space stands that is printed as it is. */
  lemma {:induction false} FirstBreak(esc: set<char>, s: string) returns (k: nat)
    requires !Unbroken(esc, s)
    ensures k < |s| && SpaceWidth(s[k..]) > 0 && s[k] !in esc
    ensures Unbroken(esc, s[..k])
  {
    if SpaceWidth(s) > 0 && s[0] !in esc {
      k := 0;
      assert s[0..] == s;
    } else {
      var j := FirstBreak(esc, s[1..]);
      k := j + 1;
      assert s[1..][j..] == s[k..];
      assert s[..k][1..] == s[1..][..j];
      WidthOfPrefix(s, k);
    }
  }

  lemma WidthOfPrefix(s: string, k: nat)
    requires 0 < k <= |s|
    ensures SpaceWidth(s[..k]) > 0 ==> SpaceWidth(s) > 0
  {
    assert forall i :: 0 <= i < k ==> s[..k][i] == s[i];
  }

  lemma {:induction false} EscapedConcat(esc: set<char>, a: string, b: string)
    requires Bytes(a) && Bytes(b)
    ensures Escaped(esc, a + b) == Escaped(esc, a) + Escaped(esc, b)
  {
    hide EscapedChar;
    if a == "" {
      assert a + b == b;
    } else {
      EscapedConcat(esc, a[1..], b);
      assert (a + b)[1..] == a[1..] + b;
    }
  }

  /** The fifth field of a record whose mount point is torn is the piece before the tear. */
  lemma TornField(esc: set<char>, m: Mount, k: nat)
    requires KernelEscapes(esc) && RestPrintable(esc, m)
    requires 0 < k < |m.mountPoint| && Unbroken(esc, m.mountPoint[..k])
    requires SpaceWidth(m.mountPoint[k..]) > 0 && m.mountPoint[k] !in esc
    ensures var f := Fields(Printed(esc, m)); |f| > 4 && f[4] == Escaped(esc, m.mountPoint[..k])
  {
    var words := PrintedFields(esc, m);
    hide Escaped, Unbroken, Word, SpaceWidth, Fields;
    HeadIsWords(esc, m);
    FieldsAfterHead(words);
    TornWord(esc, m.mountPoint[..k], m.mountPoint[k..], Joined(words[5..]));
    assert m.mountPoint == m.mountPoint[..k] + m.mountPoint[k..];
    assert words[4..][1..] == words[5..];
  }

  /** A path torn between `a` and `b` makes a field of `a`. */
  lemma TornWord(esc: set<char>, a: string, b: string, after: string)
    requires KernelEscapes(esc) && Bytes(a) && Bytes(b)
    requires a != "" && Unbroken(esc, a) && SpaceWidth(b) > 0 && b[0] !in esc
    ensures var f := Fields(Escaped(esc, a + b) + " " + after); f != [] && f[0] == Escaped(esc, a)
  {
    EscapedIsWord(esc, a);
    EscapedConcat(esc, a, b);
    WidthOfEscaped(esc, b);
    assert SpaceWidth(" " + after) > 0;
    hide Escaped, Unbroken, SpaceWidth, Word, Fields;
    TornField0(Escaped(esc, a), Escaped(esc, b), " " + after);
    Regroup(Escaped(esc, a), Escaped(esc, b), " ", after);
  }

  lemma TornField0(w: string, rest: string, after: string)
    requires Word(w) && SpaceWidth(rest) > 0 && SpaceWidth(after) > 0
    ensures var f := Fields(w + (rest + after)); f != [] && f[0] == w
  {
    WidthIsLocal(rest, after);
    hide SpaceWidth, Clean;
    FieldsOfWord("", w, rest + after);
    assert "" + w == w;
  }

  lemma FieldsAfterHead(words: seq<string>)
    requires |words| > 5 && forall i :: 0 <= i < 4 ==> Word(words[i])
    ensures Fields(Joined(words)) == words[..4] + Fields(Joined(words[4..]))
  {
    hide Word, Fields;
    FieldsFirst(words[0], Joined(words[1..]));
    FieldsFirst(words[1], Joined(words[2..]));
    FieldsFirst(words[2], Joined(words[3..]));
    FieldsFirst(words[3], Joined(words[4..]));
    assert words[1..][1..] == words[2..] && words[2..][1..] == words[3..] && words[3..][1..] == words[4..];
  }

  /**
   Any path is read back exactly when every white space in it is one the kernel escapes and the
   record is readable. A carriage return or a Unicode space in a mount point loses the mount.
   */
  lemma MountPointReadsBackExactly(esc: set<char>, m: Mount)
    requires KernelEscapes(esc) && RestPrintable(esc, m)
    requires m.mountPoint != "" && m.mountPoint[0] == '/'
    ensures var e := Parsed(Printed(esc, m));
            e.Some? && e.value.mountPoint == m.mountPoint <==> Unbroken(esc, m.mountPoint) && Readable(m)
  {
    if Unbroken(esc, m.mountPoint) {
      RecordReadsBack(esc, m);
    } else {
      var k := FirstBreak(esc, m.mountPoint);
      assert m.mountPoint[0..] == m.mountPoint;
      TornField(esc, m, k);
      UnescapeUndoesEscape(esc, m.mountPoint[..k]);
    }
  }

  lemma CarriageReturnTears(esc: set<char>, m: Mount)
    requires KernelEscapes(esc) && RestPrintable(esc, m) && m.mountPoint == "/a\rb"
    ensures var e := Parsed(Printed(esc, m)); !(e.Some? && e.value.mountPoint == m.mountPoint)
  {
    var tail := "\rb";
    assert !Unbroken(esc, tail);
    assert "/a\rb"[1..] == "a\rb" && "a\rb"[1..] == tail;
    assert !Unbroken(esc, "a\rb");
    MountPointReadsBackExactly(esc, m);
  }

  // ------------------------------------------------------------------------------
  // The guard
  // ------------------------------------------------------------------------------

  const KERNEL_SETTINGS: set<string> := {
    "autofs", "binfmt_misc", "configfs", "efivarfs", "fusectl", "pstore"
  }

  const DIAGNOSTICS: set<string> := {
    "bpf", "debugfs", "resctrl", "securityfs", "selinuxfs", "tracefs"
  }

  const KERNEL_OBJECTS: set<string> := {
    "cgroup", "cgroup2", "mqueue", "nfsd", "nsfs", "proc", "rpc_pipefs", "sysfs"
  }

  const MEMORY_AND_LAYERS: set<string> := {
    "devpts", "devtmpfs", "hugetlbfs", "overlay", "ramfs", "squashfs", "tmpfs"
  }

  /** File systems that hold no payload. */
  const PSEUDO_TYPES: set<string> := KERNEL_SETTINGS + DIAGNOSTICS + KERNEL_OBJECTS + MEMORY_AND_LAYERS

  /** What sysfs says of a block device. */
  datatype Kind = Kind(loopBacked: bool, orphaned: bool)

  function Classify(e: MountEntry, kind: Device -> Kind): Option<string>
  {
    if e.fsType in PSEUDO_TYPES then Some("pseudo filesystem (" + e.fsType + ")")
    else if kind(e.dev).loopBacked then Some("loop-backed disk image (" + e.source + ")")
    else if kind(e.dev).orphaned then
      Some("orphaned device-mapper target, no backing device (" + e.source + ")")
    else None
  }

  /** Why the line keeps the walker out of `path`, if it does. */
  function ReasonIn(line: string, path: string, kind: Device -> Kind): Option<string>
  {
    var e := Parsed(line);
    if e.Some? && e.value.mountPoint == path then Classify(e.value, kind) else None
  }

  /** The reason in the last line that gives one. */
  function LastReason(lines: seq<string>, path: string, kind: Device -> Kind): Option<string>
  {
    if lines == [] then None
    else
      var k := |lines| - 1;
      var here := ReasonIn(lines[k], path, kind);
      if here.Some? then here else LastReason(lines[..k], path, kind)
  }

  function Parsable(lines: seq<string>): nat
  {
    if lines == [] then 0
    else Parsable(lines[..|lines| - 1]) + if Parsed(lines[|lines| - 1]).Some? then 1 else 0
  }

  lemma LastReasonStep(lines: seq<string>, n: nat, kind: Device -> Kind)
    requires n < |lines|
    ensures forall p :: LastReason(lines[..n + 1], p, kind) ==
                          var here := ReasonIn(lines[n], p, kind);
                          if here.Some? then here else LastReason(lines[..n], p, kind)
    ensures Parsable(lines[..n + 1]) == Parsable(lines[..n]) + if Parsed(lines[n]).Some? then 1 else 0
  {
    hide ReasonIn, Parsed;
    assert lines[..n + 1][..n] == lines[..n];
  }

  class MountGuard {
    var skip: map<string, string>
    var total: nat
    /** The table the guard was built from, and what sysfs said of the devices. */
    ghost const mountinfo: string
    ghost const kind: Device -> Kind

    ghost predicate Valid()
      reads this
    {
      && (forall p :: (if p in skip then Some(skip[p]) else None) == LastReason(SplitLines(mountinfo), p, kind))
      && total == Parsable(SplitLines(mountinfo))
    }

    /** Of several lines for one mount point the last that says to skip it decides the reason. */
    constructor (mountinfo: string, kind: Device -> Kind)
      ensures Valid() && this.mountinfo == mountinfo && this.kind == kind
    {
      this.mountinfo, this.kind := mountinfo, kind;
      skip := map[];
      total := 0;
      new;
      var lines := SplitLines(mountinfo);
      var n := 0;
      while n < |lines|
        invariant 0 <= n <= |lines|
        invariant forall p :: (if p in skip then Some(skip[p]) else None) == LastReason(lines[..n], p, kind)
        invariant total == Parsable(lines[..n])
      {
        LastReasonStep(lines, n, kind);
        hide LastReason, Parsable, Classify, Parsed;
        var e := ParseMountinfoLine(lines[n]);
        n := n + 1;
        if e.None? {
          continue;
        }
        total := total + 1;
        var reason := Classify(e.value, kind);
        if reason.Some? {
          skip := skip[e.value.mountPoint := reason.value];
        }
      }
      assert lines[..n] == lines;
    }

    /** Why the walker must not descend into the path: what the last line of the table about it that says so gives. */
    method SkipReason(path: string) returns (r: Option<string>)
      requires Valid()
      ensures r == LastReason(SplitLines(mountinfo), path, kind)
    {
      return if path in skip then Some(skip[path]) else None;
    }
  }

  /** A guard built from a table the kernel printed keeps the walker out of exactly the unwalkable mounts whose record is readable. */
  method MayDescend(g: MountGuard, ghost esc: set<char>, ghost ms: seq<Mount>, path: string) returns (may: bool)
    requires g.Valid() && KernelEscapes(esc) && AllPrintable(esc, ms) && g.mountinfo == PrintedTable(esc, ms)
    ensures may <==> forall i :: 0 <= i < |ms| && ms[i].mountPoint == path && Readable(ms[i]) ==> !Unwalkable(ms[i], g.kind)
  {
    var r := g.SkipReason(path);
    GuardIsExact(esc, ms, g.kind, path);
    return r.None?;
  }

  /** A mount the walker must stay out of, told from the mount itself. */
  predicate Unwalkable(m: Mount, kind: Device -> Kind)
  {
    m.fsType in PSEUDO_TYPES || kind(m.dev).loopBacked || kind(m.dev).orphaned
  }

  predicate Printable(esc: set<char>, m: Mount)
  {
    RestPrintable(esc, m) && m.mountPoint != "" && Unbroken(esc, m.mountPoint)
  }

  predicate AllPrintable(esc: set<char>, ms: seq<Mount>)
  {
    forall i :: 0 <= i < |ms| ==> Printable(esc, ms[i])
  }

  function PrintedLines(esc: set<char>, ms: seq<Mount>): (r: seq<string>)
    requires AllPrintable(esc, ms)
    ensures |r| == |ms| && forall i :: 0 <= i < |ms| ==> r[i] == Printed(esc, ms[i])
  {
    seq(|ms|, i requires 0 <= i < |ms| => Printed(esc, ms[i]))
  }

  /** The table as the kernel prints it, a line for each mount. */
  function PrintedTable(esc: set<char>, ms: seq<Mount>): string
    requires AllPrintable(esc, ms)
  {
    Unlines(PrintedLines(esc, ms))
  }

  lemma {:induction false} CleanHasNoNewline(s: string)
    requires Clean(s)
    ensures OneLine(s)
  {
    if s != "" {
      CleanHasNoNewline(s[1..]);
      assert s == [s[0]] + s[1..];
    }
  }

  lemma {:induction false} JoinedIsOneLine(words: seq<string>)
    requires forall i :: 0 <= i < |words| ==> Clean(words[i])
    ensures OneLine(Joined(words))
  {
    if words != [] {
      CleanHasNoNewline(words[0]);
      JoinedIsOneLine(words[1..]);
    }
  }

  lemma RecordIsOneLine(esc: set<char>, m: Mount)
    requires KernelEscapes(esc) && Printable(esc, m)
    ensures OneLine(Printed(esc, m))
  {
    RecordIsWords(esc, m);
    JoinedIsOneLine(PrintedFields(esc, m));
  }

  predicate IsPlain(s: string)
  {
    forall i :: 0 <= i < |s| ==> s[i] < '\U{100}' && s[i] !in {' ', '\t', '\n', '\\', '#'}
  }

  lemma KernelSettingsArePlain(t: string)
    requires t in KERNEL_SETTINGS
    ensures IsPlain(t)
  {
    assert IsPlain("autofs");
    assert IsPlain("binfmt_misc");
    assert IsPlain("configfs");
    assert IsPlain("efivarfs");
    assert IsPlain("fusectl");
    assert IsPlain("pstore");
  }

  lemma DiagnosticsArePlain(t: string)
    requires t in DIAGNOSTICS
    ensures IsPlain(t)
  {
    assert IsPlain("bpf");
    assert IsPlain("debugfs");
    assert IsPlain("resctrl");
    assert IsPlain("securityfs");
    assert IsPlain("selinuxfs");
    assert IsPlain("tracefs");
  }

  lemma KernelObjectsArePlain(t: string)
    requires t in KERNEL_OBJECTS
    ensures IsPlain(t)
  {
    assert IsPlain("cgroup");
    assert IsPlain("cgroup2");
    assert IsPlain("mqueue");
    assert IsPlain("nfsd");
    assert IsPlain("nsfs");
    assert IsPlain("proc");
    assert IsPlain("rpc_pipefs");
    assert IsPlain("sysfs");
  }

  lemma MemoryAndLayersArePlain(t: string)
    requires t in MEMORY_AND_LAYERS
    ensures IsPlain(t)
  {
    assert IsPlain("devpts");
    assert IsPlain("devtmpfs");
    assert IsPlain("hugetlbfs");
    assert IsPlain("overlay");
    assert IsPlain("ramfs");
    assert IsPlain("squashfs");
    assert IsPlain("tmpfs");
  }

  lemma PseudoTypesArePlain(t: string)
    requires t in PSEUDO_TYPES
    ensures IsPlain(t)
  {
    hide KERNEL_SETTINGS, DIAGNOSTICS, KERNEL_OBJECTS, MEMORY_AND_LAYERS, IsPlain;
    if t in KERNEL_SETTINGS {
      KernelSettingsArePlain(t);
    } else if t in DIAGNOSTICS {
      DiagnosticsArePlain(t);
    } else if t in KERNEL_OBJECTS {
      KernelObjectsArePlain(t);
    } else {
      MemoryAndLayersArePlain(t);
    }
  }

  /** Escaping neither makes nor hides a pseudo file system. */
  lemma TypeIsJudgedRight(esc: set<char>, t: string)
    requires KernelEscapes(esc) && Bytes(t)
    ensures Escaped(esc, t) in PSEUDO_TYPES <==> t in PSEUDO_TYPES
  {
    hide PSEUDO_TYPES;
    if t in PSEUDO_TYPES {
      PseudoTypesArePlain(t);
      TypeReadsBackExactly(esc, t);
    } else if Escaped(esc, t) in PSEUDO_TYPES {
      PseudoTypesArePlain(Escaped(esc, t));
      NothingToUnescape(Escaped(esc, t));
      UnescapeUndoesEscape(esc, t);
    }
  }

  lemma ReasonOfRecord(esc: set<char>, m: Mount, path: string, kind: Device -> Kind)
    requires KernelEscapes(esc) && Printable(esc, m)
    ensures ReasonIn(Printed(esc, m), path, kind).Some? <==> m.mountPoint == path && Readable(m) && Unwalkable(m, kind)
  {
    hide Printed, Parsed, PSEUDO_TYPES, Escaped, Unbroken;
    RecordReadsBack(esc, m);
    TypeIsJudgedRight(esc, m.fsType);
  }

  lemma {:induction false} SomeReason(lines: seq<string>, path: string, kind: Device -> Kind)
    ensures LastReason(lines, path, kind).Some? <==>
            exists i :: 0 <= i < |lines| && ReasonIn(lines[i], path, kind).Some?
  {
    hide ReasonIn;
    if lines != [] {
      var front := lines[..|lines| - 1];
      SomeReason(front, path, kind);
      if i: nat :| i < |lines| && ReasonIn(lines[i], path, kind).Some? {
        assert i < |front| ==> front[i] == lines[i];
      }
    }
  }

  function CountReadable(ms: seq<Mount>): nat
  {
    if ms == [] then 0 else CountReadable(ms[..|ms| - 1]) + if Readable(ms[|ms| - 1]) then 1 else 0
  }

  lemma {:induction false} ParsableAreReadable(lines: seq<string>, ms: seq<Mount>)
    requires |lines| == |ms| && forall i :: 0 <= i < |lines| ==> (Parsed(lines[i]).Some? <==> Readable(ms[i]))
    ensures Parsable(lines) == CountReadable(ms)
  {
    hide Parsed, Readable;
    if lines != [] {
      ParsableAreReadable(lines[..|lines| - 1], ms[..|ms| - 1]);
    }
  }

  /**
   From the kernel's table to the walker: the guard built from the printed table keeps out
   exactly the mount points of the mounts that are unwalkable and readable, and counts every
   readable mount.
   */
  lemma GuardIsExact(esc: set<char>, ms: seq<Mount>, kind: Device -> Kind, path: string)
    requires KernelEscapes(esc) && AllPrintable(esc, ms)
    ensures var lines := SplitLines(PrintedTable(esc, ms));
            && Parsable(lines) == CountReadable(ms)
            && (LastReason(lines, path, kind).Some? <==>
                exists i :: 0 <= i < |ms| && ms[i].mountPoint == path && Readable(ms[i]) && Unwalkable(ms[i], kind))
  {
    hide Printed, Parsed, Unbroken, ReasonIn, Unwalkable, Readable;
    var printed := PrintedLines(esc, ms);
    forall i | 0 <= i < |ms|
      ensures OneLine(printed[i]) && (Parsed(printed[i]).Some? <==> Readable(ms[i]))
      ensures ReasonIn(printed[i], path, kind).Some? <==>
              ms[i].mountPoint == path && Readable(ms[i]) && Unwalkable(ms[i], kind)
    {
      RecordIsOneLine(esc, ms[i]);
      RecordReadsBack(esc, ms[i]);
      ReasonOfRecord(esc, ms[i], path, kind);
    }
    SplitUnlines(printed);
    EmptyLineIsIgnored(path, kind);
    var lines := printed + [""];
    assert lines[..|ms|] == printed;
    ParsableAreReadable(printed, ms);
    SomeReason(printed, path, kind);
  }

  /** Kernel-synthetic and overlay file systems. */
  predicate Synthetic(t: string)
  {
    || t == "autofs" || t == "binfmt_misc" || t == "bpf" || t == "cgroup" || t == "cgroup2" || t == "configfs" || t == "debugfs"
    || t == "devpts" || t == "devtmpfs" || t == "efivarfs" || t == "fusectl" || t == "hugetlbfs" || t == "mqueue" || t == "nfsd"
    || t == "nsfs" || t == "overlay" || t == "proc" || t == "pstore" || t == "ramfs" || t == "resctrl" || t == "rpc_pipefs"
    || t == "securityfs" || t == "selinuxfs" || t == "squashfs" || t == "sysfs" || t == "tmpfs" || t == "tracefs"
  }

  /** File systems that hold data, those of FUSE included. */
  predicate HoldsData(t: string)
  {
    || "fuse." <= t
    || t == "ext2" || t == "ext3" || t == "ext4" || t == "xfs" || t == "btrfs" || t == "zfs" || t == "vfat"
    || t == "nfs" || t == "nfs4" || t == "cifs"
  }

  lemma SyntheticAreSkipped(t: string)
    ensures t in PSEUDO_TYPES <==> Synthetic(t)
  {
    if Synthetic(t) {
      assert t in KERNEL_SETTINGS || t in DIAGNOSTICS || t in KERNEL_OBJECTS || t in MEMORY_AND_LAYERS;
    } else {
      assert t !in KERNEL_SETTINGS;
      assert t !in DIAGNOSTICS;
      assert t !in KERNEL_OBJECTS;
      assert t !in MEMORY_AND_LAYERS;
    }
    hide KERNEL_SETTINGS, DIAGNOSTICS, KERNEL_OBJECTS, MEMORY_AND_LAYERS, Synthetic;
  }

  lemma DataIsNotSynthetic(t: string)
    requires HoldsData(t)
    ensures !Synthetic(t)
  {
    if "fuse." <= t {
      assert t[4] == '.' && |t| >= 5;
    }
  }

  /**
   Which file systems the walker is kept out of, on any table the kernel printed: the synthetic
   ones, and any on a loop device or without a backing device.
   */
  lemma SkippedTypes(esc: set<char>, ms: seq<Mount>, kind: Device -> Kind, path: string)
    requires KernelEscapes(esc) && AllPrintable(esc, ms)
    ensures LastReason(SplitLines(PrintedTable(esc, ms)), path, kind).Some? <==>
            exists i :: 0 <= i < |ms| && ms[i].mountPoint == path && Readable(ms[i])
                        && (Synthetic(ms[i].fsType) || kind(ms[i].dev).loopBacked || kind(ms[i].dev).orphaned)
  {
    GuardIsExact(esc, ms, kind, path);
    hide PrintedTable, PSEUDO_TYPES, Synthetic, Readable, LastReason, SplitLines;
    forall i | 0 <= i < |ms|
      ensures ms[i].fsType in PSEUDO_TYPES <==> Synthetic(ms[i].fsType)
    {
      SyntheticAreSkipped(ms[i].fsType);
    }
  }

  /** A data file system on a sound device stays walkable, whatever else is mounted elsewhere. */
  lemma DataStaysWalkable(esc: set<char>, ms: seq<Mount>, kind: Device -> Kind, path: string)
    requires KernelEscapes(esc) && AllPrintable(esc, ms)
    requires forall i :: 0 <= i < |ms| && ms[i].mountPoint == path ==>
                           HoldsData(ms[i].fsType) && kind(ms[i].dev) == Kind(false, false)
    ensures LastReason(SplitLines(PrintedTable(esc, ms)), path, kind).None?
  {
    SkippedTypes(esc, ms, kind, path);
    hide PrintedTable, Synthetic, HoldsData, Readable, LastReason, SplitLines;
    forall i | 0 <= i < |ms| && ms[i].mountPoint == path
      ensures !Synthetic(ms[i].fsType)
    {
      DataIsNotSynthetic(ms[i].fsType);
    }
  }

  /** What the guard says of a mount it keeps the walker out of: its type if that is the reason, and its source otherwise. */
  function ReasonOf(m: Mount, kind: Device -> Kind): string
  {
    if Synthetic(m.fsType) then "pseudo filesystem (" + m.fsType + ")"
    else if kind(m.dev).loopBacked then "loop-backed disk image (" + SourceRead(m) + ")"
    else "orphaned device-mapper target, no backing device (" + SourceRead(m) + ")"
  }

  /** The walker must stay out of the mount, and the guard can read its record. */
  predicate KeepsOut(m: Mount, path: string, kind: Device -> Kind)
  {
    m.mountPoint == path && Readable(m) && (Synthetic(m.fsType) || kind(m.dev).loopBacked || kind(m.dev).orphaned)
  }

  lemma ReasonOfMount(esc: set<char>, m: Mount, path: string, kind: Device -> Kind)
    requires KernelEscapes(esc) && Printable(esc, m)
    ensures ReasonIn(Printed(esc, m), path, kind) == if KeepsOut(m, path, kind) then Some(ReasonOf(m, kind)) else None
  {
    hide Printed, Parsed, PSEUDO_TYPES, Escaped, Unbroken, Synthetic, SourceRead;
    RecordReadsBack(esc, m);
    TypeIsJudgedRight(esc, m.fsType);
    SyntheticAreSkipped(m.fsType);
    if m.fsType in PSEUDO_TYPES {
      PseudoTypesArePlain(m.fsType);
      TypeReadsBackExactly(esc, m.fsType);
    }
  }

  lemma {:induction false} LastReasonAt(lines: seq<string>, i: nat, path: string, kind: Device -> Kind)
    requires i < |lines| && ReasonIn(lines[i], path, kind).Some?
    requires forall j :: i < j < |lines| ==> ReasonIn(lines[j], path, kind).None?
    ensures LastReason(lines, path, kind) == ReasonIn(lines[i], path, kind)
  {
    hide ReasonIn;
    if i < |lines| - 1 {
      LastReasonAt(lines[..|lines| - 1], i, path, kind);
    }
  }

  /** Of several mounts over one another the last that the walker must stay out of gives the reason. */
  lemma LastMountGivesReason(esc: set<char>, ms: seq<Mount>, kind: Device -> Kind, path: string, i: nat)
    requires KernelEscapes(esc) && AllPrintable(esc, ms) && i < |ms| && KeepsOut(ms[i], path, kind)
    requires forall j :: i < j < |ms| ==> !KeepsOut(ms[j], path, kind)
    ensures LastReason(SplitLines(PrintedTable(esc, ms)), path, kind) == Some(ReasonOf(ms[i], kind))
  {
    hide Printed, Parsed, Unbroken, ReasonIn, KeepsOut, ReasonOf, LastReason;
    var printed := PrintedLines(esc, ms);
    forall j | 0 <= j < |ms|
      ensures OneLine(printed[j])
      ensures ReasonIn(printed[j], path, kind) == if KeepsOut(ms[j], path, kind) then Some(ReasonOf(ms[j], kind)) else None
    {
      RecordIsOneLine(esc, ms[j]);
      ReasonOfMount(esc, ms[j], path, kind);
    }
    SplitUnlines(printed);
    EmptyLineIsIgnored(path, kind);
    LastReasonAt(printed + [""], i, path, kind);
  }

  const BARE_TMPFS := Mount(40, 1, Device(0, 50), "/", "/run/x", "rw", [], "tmpfs", "", "rw")

  lemma BareTmpfsIsPrintable(esc: set<char>)
    ensures Printable(esc, BARE_TMPFS)
  {
    PlainIsUnbroken(esc, "/");
    PlainIsUnbroken(esc, "/run/x");
    PlainIsUnbroken(esc, "tmpfs");
    PlainIsUnbroken(esc, "");
    PlainIsClean("rw");
    hide Unbroken, Clean, Bytes;
  }

  lemma BareTmpfsIsUnwalkable(kind: Device -> Kind)
    ensures Unwalkable(BARE_TMPFS, kind)
  {
    assert "tmpfs" in MEMORY_AND_LAYERS;
    hide KERNEL_SETTINGS, DIAGNOSTICS, KERNEL_OBJECTS, MEMORY_AND_LAYERS;
  }

  /** A tmpfs mounted without a source: the kernel prints nine fields, and the guard lets the walker in. */
  lemma EmptySourceSlipsThrough(esc: set<char>, kind: Device -> Kind)
    requires KernelEscapes(esc)
    ensures Printable(esc, BARE_TMPFS) && Unwalkable(BARE_TMPFS, kind)
    ensures LastReason(SplitLines(PrintedTable(esc, [BARE_TMPFS])), BARE_TMPFS.mountPoint, kind).None?
  {
    BareTmpfsIsPrintable(esc);
    BareTmpfsIsUnwalkable(kind);
    assert !Readable(BARE_TMPFS);
    hide Printable, Unwalkable, Readable, LastReason, SplitLines, PrintedTable, BARE_TMPFS;
    GuardIsExact(esc, [BARE_TMPFS], kind, BARE_TMPFS.mountPoint);
  }

  lemma {:induction false} PlainIsClean(s: string)
    requires forall i :: 0 <= i < |s| ==> '!' <= s[i] <= '~'
    ensures Clean(s)
  {
    if s != "" {
      PlainIsClean(s[1..]);
    }
  }

  lemma {:induction false} PlainIsUnbroken(esc: set<char>, s: string)
    requires forall i :: 0 <= i < |s| ==> '!' <= s[i] <= '~'
    ensures Unbroken(esc, s) && Bytes(s)
  {
    if s != "" {
      PlainIsUnbroken(esc, s[1..]);
    }
  }

  lemma EmptyLineIsIgnored(path: string, kind: Device -> Kind)
    ensures Parsed("").None? && ReasonIn("", path, kind).None?
  {
  }
}
