/** String helpers with the JavaScript semantics the generator relies on:
    the `trim` helper (a multiline `^\t\t` removal followed by
    `String.prototype.trim`), `String.prototype.split` on a one-character
    separator, and the decimal rendering of a non-negative integer. */
module Text {

  // ---------------------------------------------------------------------
  // Character classes of ECMAScript

  /** LineTerminator: the characters after which a multiline `^` matches. */
  predicate IsLineTerminator(c: char)
  {
    c == '\n' || c == '\r' || c as int == 0x2028 || c as int == 0x2029
  }

  /** WhiteSpace or LineTerminator: what `String.prototype.trim` removes. */
  predicate IsWhiteSpace(c: char)
  {
    || IsLineTerminator(c)
    || c == '\t' || c as int == 0x0B || c as int == 0x0C || c == ' '
    || c as int == 0xA0 || c as int == 0xFEFF || c as int == 0x1680
    || (0x2000 <= c as int <= 0x200A)
    || c as int == 0x202F || c as int == 0x205F || c as int == 0x3000
  }

  predicate AllWhiteSpace(s: string)
  {
    forall k :: 0 <= k < |s| ==> IsWhiteSpace(s[k])
  }

  predicate NoLineTerminator(s: string)
  {
    forall k :: 0 <= k < |s| ==> !IsLineTerminator(s[k])
  }

  // ---------------------------------------------------------------------
  // str.replace(/^\t\t/gm, '')

  /** The text with every tab dropped: what the tab removal cannot change. */
  function WithoutTabs(s: string): string
  {
    if s == [] then [] else (if s[0] == '\t' then [] else [s[0]]) + WithoutTabs(s[1..])
  }

  /** Removal of two tabs at the start of every line, scanning from a
      position where a multiline `^` matches. */
  function StripAtLineStart(s: string): (r: string)
    ensures |r| <= |s|
    decreases |s|, 1
  {
    if |s| >= 2 && s[0] == '\t' && s[1] == '\t' then
      StripInLine(s[2..])
    else StripInLine(s)
  }

  /** The same scan from a position inside a line, where `^` does not match. */
  function StripInLine(s: string): (r: string)
    ensures |r| <= |s|
    decreases |s|, 0
  {
    if s == [] then []
    else
      if IsLineTerminator(s[0]) then [s[0]] + StripAtLineStart(s[1..])
      else [s[0]] + StripInLine(s[1..])
  }


  /** The removal drops tabs and nothing else, from a line start ... */
  lemma {:induction false} StripAtLineStartDropsOnlyTabs(s: string)
    ensures WithoutTabs(StripAtLineStart(s)) == WithoutTabs(s)
    decreases |s|, 1
  {
    if |s| >= 2 && s[0] == '\t' && s[1] == '\t' {
      assert s[1..][1..] == s[2..];
      StripInLineDropsOnlyTabs(s[2..]);
    } else {
      StripInLineDropsOnlyTabs(s);
    }
  }

  /** ... and from inside a line. */
  lemma {:induction false} StripInLineDropsOnlyTabs(s: string)
    ensures WithoutTabs(StripInLine(s)) == WithoutTabs(s)
    decreases |s|, 0
  {
    if s != [] {
      var tail := if IsLineTerminator(s[0]) then StripAtLineStart(s[1..]) else StripInLine(s[1..]);
      if IsLineTerminator(s[0]) {
        StripAtLineStartDropsOnlyTabs(s[1..]);
      } else {
        StripInLineDropsOnlyTabs(s[1..]);
      }
      assert StripInLine(s) == [s[0]] + tail;
      assert ([s[0]] + tail)[1..] == tail;
    }
  }

  /** The per-line reference: a line loses two leading tabs, if it has them. */
  function DropTwoTabs(line: string): string
  {
    if |line| >= 2 && line[0] == '\t' && line[1] == '\t' then line[2..] else line
  }

  lemma {:induction false} StripInLineKeepsLine(x: string, rest: string)
    requires NoLineTerminator(x)
    ensures StripInLine(x + rest) == x + StripInLine(rest)
    decreases |x|
  {
    if x != [] {
      assert (x + rest)[0] == x[0] && !IsLineTerminator(x[0]);
      assert (x + rest)[1..] == x[1..] + rest;
      assert NoLineTerminator(x[1..]) by {
        assert forall k :: 0 <= k < |x[1..]| ==> x[1..][k] == x[k + 1];
      }
      StripInLineKeepsLine(x[1..], rest);
      assert StripInLine(x + rest) == [x[0]] + StripInLine(x[1..] + rest);
      assert x == [x[0]] + x[1..];
    } else {
      assert x + rest == rest;
    }
  }

  /** The last line of a text: two leading tabs go, nothing else changes. */
  lemma StripLastLine(line: string)
    requires NoLineTerminator(line)
    ensures StripAtLineStart(line) == DropTwoTabs(line)
  {
    if |line| >= 2 && line[0] == '\t' && line[1] == '\t' {
      StripInLineKeepsLine(line[2..], []);
      assert line[2..] + [] == line[2..];
    } else {
      StripInLineKeepsLine(line, []);
      assert line + [] == line;
    }
  }

  /** A line followed by a terminator: the line is treated by `DropTwoTabs`,
      the terminator is kept, and the scan restarts at the next line. */
  lemma StripLineThenRest(line: string, t: char, rest: string)
    requires NoLineTerminator(line) && IsLineTerminator(t)
    ensures StripAtLineStart(line + [t] + rest) == DropTwoTabs(line) + [t] + StripAtLineStart(rest)
  {
    var tail := [t] + rest;
    assert StripInLine(tail) == [t] + StripAtLineStart(rest) by {
      assert tail[0] == t && tail[1..] == rest;
    }
    if |line| >= 2 && line[0] == '\t' && line[1] == '\t' {
      assert (line + [t] + rest)[2..] == line[2..] + tail;
      StripInLineKeepsLine(line[2..], tail);
    } else {
      assert line + [t] + rest == line + tail;
      if |line| < 2 {
        // a line shorter than two characters, followed by the terminator, does not start with two tabs
        assert !(|line + tail| >= 2 && (line + tail)[0] == '\t' && (line + tail)[1] == '\t') by {
          if |line| == 1 { assert (line + tail)[1] == t; }
          else { assert (line + tail)[0] == t; }
        }
      } else {
        assert (line + tail)[0] == line[0] && (line + tail)[1] == line[1];
      }
      StripInLineKeepsLine(line, tail);
    }
  }

  // ---------------------------------------------------------------------
  // String.prototype.trim

  /** The number of whitespace characters `s` starts with. */
  function LeadingWhiteSpace(s: string): (k: nat)
    ensures k <= |s| && AllWhiteSpace(s[..k])
    ensures k < |s| ==> !IsWhiteSpace(s[k])
  {
    if s != [] && IsWhiteSpace(s[0]) then
      var k := LeadingWhiteSpace(s[1..]);
      assert forall j :: 1 <= j < k + 1 ==> s[j] == s[1..][..k][j - 1];
      1 + k
    else 0
  }

  /** The number of whitespace characters `s` ends with. */
  function TrailingWhiteSpace(s: string): (k: nat)
    ensures k <= |s| && AllWhiteSpace(s[|s| - k..])
    ensures k < |s| ==> !IsWhiteSpace(s[|s| - k - 1])
  {
    if s != [] && IsWhiteSpace(s[|s| - 1]) then
      var prefix := s[..|s| - 1];
      var k := TrailingWhiteSpace(prefix);
      assert forall j :: |s| - k - 1 <= j < |s| - 1 ==> s[j] == prefix[|prefix| - k..][j - (|s| - k - 1)];
      1 + k
    else 0
  }

  /** `String.prototype.trim`: the input with its whitespace on both ends cut
      off, and only that. */
  function JsTrim(s: string): (r: string)
    ensures exists i, j :: 0 <= i <= j <= |s| && r == s[i..j] && AllWhiteSpace(s[..i]) && AllWhiteSpace(s[j..])
    ensures r == [] || (!IsWhiteSpace(r[0]) && !IsWhiteSpace(r[|r| - 1]))
  {
    var i := LeadingWhiteSpace(s);
    var k := TrailingWhiteSpace(s[i..]);
    var j := |s| - k;
    assert s[i..][|s[i..]| - k..] == s[j..];
    s[i..j]
  }

  /** Trimming twice is trimming once. */
  lemma JsTrimIdempotent(s: string)
    ensures JsTrim(JsTrim(s)) == JsTrim(s)
  {
    var r := JsTrim(s);
    if r != [] {
      assert LeadingWhiteSpace(r) == 0;
      assert TrailingWhiteSpace(r[0..]) == 0;
      assert r[0..|r|] == r;
    }
  }

  /** The source's `trim`: strip two leading tabs from every line, then trim
      the whole text. */
  function Trim(str: string): (r: string)
    ensures exists i, j :: && 0 <= i <= j <= |StripAtLineStart(str)|
                           && r == StripAtLineStart(str)[i..j]
                           && AllWhiteSpace(StripAtLineStart(str)[..i])
                           && AllWhiteSpace(StripAtLineStart(str)[j..])
    ensures r == [] || (!IsWhiteSpace(r[0]) && !IsWhiteSpace(r[|r| - 1]))
  {
    JsTrim(StripAtLineStart(str))
  }

  // ---------------------------------------------------------------------
  // String.prototype.split with a one-character separator, and its inverse

  /** `s.split(sep)`: the pieces between separators, the empty string giving
      one empty piece. */
  function Split(s: string, sep: char): (r: seq<string>)
    ensures |r| >= 1
    ensures forall k :: 0 <= k < |r| ==> sep !in r[k]
  {
    if s == [] then [[]]
    else if s[0] == sep then [[]] + Split(s[1..], sep)
    else
      var rest := Split(s[1..], sep);
      [[s[0]] + rest[0]] + rest[1..]
  }

  /** A separator in front ends an empty first piece. */
  lemma SplitSeparator(sep: char, rest: string)
    ensures Split([sep] + rest, sep) == [[]] + Split(rest, sep)
  {
    assert ([sep] + rest)[1..] == rest;
  }

  /** Any other character in front joins the first piece of the rest. */
  lemma SplitOther(c: char, sep: char, rest: string)
    requires c != sep
    ensures Split([c] + rest, sep) == [[c] + Split(rest, sep)[0]] + Split(rest, sep)[1..]
  {
    assert ([c] + rest)[1..] == rest;
  }

  /** `parts.join(sep)`. */
  function Join(parts: seq<string>, sep: char): string
  {
    if parts == [] then []
    else if |parts| == 1 then parts[0]
    else parts[0] + [sep] + Join(parts[1..], sep)
  }

  /** Joining the pieces gives back the string. */
  lemma {:induction false} JoinSplit(s: string, sep: char)
    ensures Join(Split(s, sep), sep) == s
  {
    if s == [] {
    } else if s[0] == sep {
      JoinSplit(s[1..], sep);
    } else {
      var rest := Split(s[1..], sep);
      JoinSplit(s[1..], sep);
      if |rest| == 1 {
      } else {
        assert ([[s[0]] + rest[0]] + rest[1..])[1..] == rest[1..];
        assert Join(rest, sep) == rest[0] + [sep] + Join(rest[1..], sep);
      }
    }
  }

  /** Splitting a join of separator-free pieces gives back the pieces. */
  lemma {:induction false} SplitJoin(parts: seq<string>, sep: char)
    requires |parts| >= 1
    requires forall k :: 0 <= k < |parts| ==> sep !in parts[k]
    ensures Split(Join(parts, sep), sep) == parts
    decreases |parts|, |parts[0]|
  {
    var p := parts[0];
    if p == [] {
      if |parts| == 1 {
      } else {
        var tail := Join(parts[1..], sep);
        assert Join(parts, sep) == [sep] + tail;
        assert ([sep] + tail)[1..] == tail;
        SplitJoin(parts[1..], sep);
      }
    } else {
      var shorter := [p[1..]] + parts[1..];
      assert sep !in p[1..] by {
        assert forall c :: c in p[1..] ==> c in p;
      }
      assert forall k :: 0 <= k < |shorter| ==> sep !in shorter[k] by {
        forall k | 0 <= k < |shorter| ensures sep !in shorter[k] {
          if k > 0 { assert shorter[k] == parts[k]; }
        }
      }
      assert Join(parts, sep) == [p[0]] + Join(shorter, sep) by {
        assert p == [p[0]] + p[1..];
        if |parts| > 1 {
          assert shorter[1..] == parts[1..];
        }
      }
      var s := Join(parts, sep);
      assert s[0] == p[0] && s[1..] == Join(shorter, sep);
      assert p[0] != sep by { assert p[0] in p; }
      SplitJoin(shorter, sep);
      assert [s[0]] + shorter[0] == p;
      assert [[s[0]] + shorter[0]] + shorter[1..] == parts;
    }
  }

  // ---------------------------------------------------------------------
  // Decimal rendering of a non-negative integer (a template's `${n}`)

  function DigitChar(d: nat): (c: char)
    requires d < 10
    ensures '0' <= c <= '9' && c as int - '0' as int == d
  {
    ('0' as int + d) as char
  }

  function NatToString(n: nat): (s: string)
    ensures |s| >= 1
    ensures forall k :: 0 <= k < |s| ==> '0' <= s[k] <= '9'
    ensures n >= 10 ==> |s| >= 2
  {
    if n < 10 then [DigitChar(n)] else NatToString(n / 10) + [DigitChar(n % 10)]
  }

  /** The number a string of decimal digits spells, most significant first. */
  function DecimalValue(s: string): nat
    requires forall k :: 0 <= k < |s| ==> '0' <= s[k] <= '9'
  {
    if s == [] then 0 else 10 * DecimalValue(s[..|s| - 1]) + (s[|s| - 1] as int - '0' as int)
  }

  /** The rendering spells `n` in decimal, without leading zeros. */
  lemma {:induction false} NatToStringValue(n: nat)
    ensures DecimalValue(NatToString(n)) == n
    ensures |NatToString(n)| > 1 ==> NatToString(n)[0] != '0'
  {
    var s := NatToString(n);
    if n < 10 {
      assert s[..0] == [];
    } else {
      NatToStringValue(n / 10);
      assert s[..|s| - 1] == NatToString(n / 10);
      assert s[0] == NatToString(n / 10)[0];
    }
  }

  /** Different numbers render differently. */
  lemma {:induction false} NatToStringInjective(a: nat, b: nat)
    requires NatToString(a) == NatToString(b)
    ensures a == b
  {
    var sa, sb := NatToString(a), NatToString(b);
    if a < 10 && b < 10 {
      assert sa[0] == sb[0];
    } else if a >= 10 && b >= 10 {
      assert sa[|sa| - 1] == sb[|sb| - 1];
      assert a % 10 == b % 10;
      assert sa[..|sa| - 1] == NatToString(a / 10);
      assert sb[..|sb| - 1] == NatToString(b / 10);
      NatToStringInjective(a / 10, b / 10);
    }
  }
}
