/** The parts of Python's built-in string, slice and integer semantics that the
    line editor relies on, stated over `seq<char>`. Each function follows the
    CPython behaviour for the arguments the editor can pass. */
module PyText {

  /** Python's `None` or a value. */
  datatype Option<T> = None | Some(value: T)

  /** Python's `s[i:]` for any integer `i`: a negative index counts from the
      end, and an index past either end is clamped. */
  function SliceFrom<T>(s: seq<T>, i: int): (r: seq<T>)
    ensures |r| <= |s| && r == s[|s| - |r|..]
    ensures 0 <= i <= |s| ==> |r| == |s| - i
    ensures |s| < i ==> r == []
    ensures i < 0 ==> |r| == if -i <= |s| then -i else |s|
  {
    if 0 <= i then (if i <= |s| then s[i..] else [])
    else if -i <= |s| then s[|s| + i..] else s
  }

  /** Python's `s[:-1]`: everything but the last element (empty stays empty). */
  function DropLast<T>(s: seq<T>): (r: seq<T>)
    ensures s != [] ==> s == r + [s[|s| - 1]]
    ensures s == [] ==> r == []
  {
    if s == [] then [] else s[..|s| - 1]
  }

  /** Python's `s[::-1]`. */
  function Reversed<T>(s: seq<T>): (r: seq<T>)
    ensures |r| == |s|
    ensures forall i | 0 <= i < |s| :: r[i] == s[|s| - 1 - i]
  {
    if s == [] then [] else [s[|s| - 1]] + Reversed(s[..|s| - 1])
  }

  // ---------------------------------------------------------------------------
  // str.replace

  /** `pat` occurs somewhere in `s` (the empty pattern occurs everywhere). */
  ghost predicate Occurs(pat: string, s: string)
  {
    exists i :: 0 <= i <= |s| - |pat| && pat <= s[i..]
  }

  /** Python's `s.replace(pat, rep)`: every non-overlapping occurrence of `pat`,
      found scanning left to right, is replaced by `rep`. */
  function Replace(s: string, pat: string, rep: string): string
    decreases |s|
  {
    if pat == [] then ReplaceEmpty(s, rep)
    else if s == [] then []
    else if pat <= s then rep + Replace(s[|pat|..], pat, rep)
    else [s[0]] + Replace(s[1..], pat, rep)
  }

  /** `s.replace("", rep)`: `rep` before every character and once at the end. */
  function ReplaceEmpty(s: string, rep: string): string
  {
    if s == [] then rep else rep + [s[0]] + ReplaceEmpty(s[1..], rep)
  }

  /** The number of replacements `Replace` performs. */
  function MatchCount(s: string, pat: string): nat
    requires pat != []
    decreases |s|
  {
    if s == [] then 0
    else if pat <= s then 1 + MatchCount(s[|pat|..], pat)
    else MatchCount(s[1..], pat)
  }

  /** Each replacement changes the length by `|rep| - |pat|`, and nothing else does. */
  lemma {:induction false} ReplaceLength(s: string, pat: string, rep: string)
    requires pat != []
    ensures |Replace(s, pat, rep)| == |s| + MatchCount(s, pat) * (|rep| - |pat|)
    decreases |s|
  {
    if s == [] {
    } else if pat <= s {
      ReplaceLength(s[|pat|..], pat, rep);
      MultiplyStep(MatchCount(s[|pat|..], pat), |rep| - |pat|);
    } else {
      ReplaceLength(s[1..], pat, rep);
    }
  }

  lemma MultiplyStep(k: int, d: int)
    ensures (1 + k) * d == k * d + d
  {
  }

  lemma OccursStep(pat: string, s: string)
    requires pat != [] && s != []
    ensures Occurs(pat, s) <==> pat <= s || Occurs(pat, s[1..])
  {
    if Occurs(pat, s) && !(pat <= s) {
      var i :| 0 <= i <= |s| - |pat| && pat <= s[i..];
      assert i != 0;
      assert s[1..][i - 1..] == s[i..];
    }
    if Occurs(pat, s[1..]) {
      var i :| 0 <= i <= |s[1..]| - |pat| && pat <= s[1..][i..];
      assert s[1..][i..] == s[i + 1..];
    }
    if pat <= s {
      assert s[0..] == s;
    }
  }

  lemma {:induction false} ReplaceEmptyIdentity(s: string)
    ensures ReplaceEmpty(s, []) == s
  {
    if s != [] {
      ReplaceEmptyIdentity(s[1..]);
    }
  }

  lemma {:induction false} ReplaceEmptyGrows(s: string, rep: string)
    ensures |ReplaceEmpty(s, rep)| >= |s| + |rep|
  {
    if s != [] {
      ReplaceEmptyGrows(s[1..], rep);
    }
  }

  /** A replacement that is not a no-op changes a text that starts with the pattern. */
  lemma ReplaceChangesMatch(s: string, pat: string, rep: string)
    requires pat != [] && pat <= s && pat != rep
    ensures Replace(s, pat, rep) != s
  {
    var r := Replace(s, pat, rep);
    assert r == rep + Replace(s[|pat|..], pat, rep);
    if |rep| == |pat| {
      assert r[..|pat|] == rep;
      assert s[..|pat|] == pat;
    } else {
      ReplaceLength(s, pat, rep);
      var k := MatchCount(s, pat);
      assert k >= 1;
      assert k * (|rep| - |pat|) != 0;
    }
  }

  lemma ReplaceEmptyFixedIff(s: string, rep: string)
    ensures ReplaceEmpty(s, rep) == s <==> rep == []
  {
    if rep == [] {
      ReplaceEmptyIdentity(s);
    } else {
      ReplaceEmptyGrows(s, rep);
    }
  }

  /** `s.replace(pat, rep) == s` exactly when the replacement is a no-op
      (`pat == rep`) or `pat` does not occur in `s`. */
  lemma {:induction false} ReplaceFixedIff(s: string, pat: string, rep: string)
    ensures Replace(s, pat, rep) == s <==> (pat == rep || !Occurs(pat, s))
    decreases |s|
  {
    if pat == [] {
      assert pat <= s[0..];
      ReplaceEmptyFixedIff(s, rep);
    } else if s == [] {
      assert !Occurs(pat, s);
    } else {
      OccursStep(pat, s);
      if pat <= s {
        if pat == rep {
          ReplaceFixedIff(s[|pat|..], pat, rep);
          assert s == pat + s[|pat|..];
        } else {
          ReplaceChangesMatch(s, pat, rep);
        }
      } else {
        ReplaceFixedIff(s[1..], pat, rep);
        assert s == [s[0]] + s[1..];
      }
    }
  }

  /** A non-empty text with a non-empty replacement never becomes empty. */
  lemma ReplaceKeepsNonEmpty(s: string, pat: string, rep: string)
    requires s != [] && rep != []
    ensures Replace(s, pat, rep) != []
  {
  }

  // ---------------------------------------------------------------------------
  // str.split(sep) for a one-character separator, and sep.join

  /** Python's `s.split(sep)`: the pieces between separators, always at least one. */
  function Split(s: string, sep: char): (pieces: seq<string>)
    ensures |pieces| >= 1
    ensures forall k | 0 <= k < |pieces| :: sep !in pieces[k]
  {
    if s == [] then [[]]
    else
      var rest := Split(s[1..], sep);
      if s[0] == sep then [[]] + rest
      else [[s[0]] + rest[0]] + rest[1..]
  }

  /** Python's `sep.join(pieces)`. */
  function Join(pieces: seq<string>, sep: char): string
    requires |pieces| >= 1
  {
    if |pieces| == 1 then pieces[0] else pieces[0] + [sep] + Join(pieces[1..], sep)
  }

  /** Joining two pieces puts one separator between them. */
  lemma JoinPair(a: string, b: string, sep: char)
    ensures Join([a, b], sep) == a + [sep] + b
  {
    assert [a, b][1..] == [b];
    assert Join([b], sep) == b;
  }

  /** Joining one more piece adds a separator and that piece at the end. */
  lemma {:induction false} JoinSnoc(pieces: seq<string>, x: string, sep: char)
    requires |pieces| >= 1
    ensures Join(pieces + [x], sep) == Join(pieces, sep) + [sep] + x
  {
    if |pieces| == 1 {
      assert pieces + [x] == [pieces[0], x];
      JoinPair(pieces[0], x, sep);
    } else {
      assert (pieces + [x])[1..] == pieces[1..] + [x];
      JoinSnoc(pieces[1..], x, sep);
    }
  }

  /** Joining the pieces of a split gives back the text. */
  lemma {:induction false} JoinSplit(s: string, sep: char)
    ensures Join(Split(s, sep), sep) == s
  {
    if s != [] {
      JoinSplit(s[1..], sep);
      var rest := Split(s[1..], sep);
      if s[0] != sep {
        if |rest| == 1 {
        } else {
          assert ([[s[0]] + rest[0]] + rest[1..])[1..] == rest[1..];
        }
      }
    }
  }

  /** How `Split` sees a text by its first character. */
  lemma SplitCons(c: char, t: string, sep: char)
    ensures c == sep ==> Split([c] + t, sep) == [[]] + Split(t, sep)
    ensures c != sep ==> Split([c] + t, sep) == [[c] + Split(t, sep)[0]] + Split(t, sep)[1..]
  {
    assert ([c] + t)[1..] == t;
  }

  /** Splitting a join of separator-free pieces gives back the pieces. */
  lemma {:induction false} SplitJoin(pieces: seq<string>, sep: char)
    requires |pieces| >= 1
    requires forall k | 0 <= k < |pieces| :: sep !in pieces[k]
    ensures Split(Join(pieces, sep), sep) == pieces
    decreases |Join(pieces, sep)|
  {
    var p := pieces[0];
    if p == [] {
      if |pieces| > 1 {
        var tail := Join(pieces[1..], sep);
        assert Join(pieces, sep) == [sep] + tail;
        SplitJoin(pieces[1..], sep);
        SplitCons(sep, tail, sep);
        assert [[]] + pieces[1..] == pieces;
      }
    } else {
      var shorter := [p[1..]] + pieces[1..];
      assert shorter[1..] == pieces[1..];
      var tail := Join(shorter, sep);
      assert Join(pieces, sep) == [p[0]] + tail;
      SplitJoin(shorter, sep);
      SplitCons(p[0], tail, sep);
      assert [p[0]] + p[1..] == p;
      assert pieces == [[p[0]] + shorter[0]] + shorter[1..];
    }
  }

  /** The last element of `s.split(sep)`: the longest suffix of `s` free of `sep`. */
  function LastPiece(s: string, sep: char): string
  {
    var pieces := Split(s, sep);
    pieces[|pieces| - 1]
  }

  /** A split has a single piece exactly when the separator does not occur. */
  lemma {:induction false} SplitSingle(s: string, sep: char)
    ensures |Split(s, sep)| == 1 <==> sep !in s
  {
    if s != [] {
      SplitSingle(s[1..], sep);
      assert s == [s[0]] + s[1..];
    }
  }

  /** How the last piece of a text relates to the last piece of its tail. */
  lemma LastPieceStep(s: string, sep: char)
    requires s != []
    ensures LastPiece(s, sep) == if s[0] != sep && sep !in s[1..] then s else LastPiece(s[1..], sep)
  {
    SplitSingle(s[1..], sep);
    if s[0] != sep && sep !in s[1..] {
      JoinSplit(s[1..], sep);
      assert s == [s[0]] + s[1..];
    }
  }

  /** The last piece of a split is the longest separator-free suffix. */
  lemma {:induction false} LastPieceIsMaximalSuffix(s: string, sep: char)
    ensures var w := LastPiece(s, sep);
      && |w| <= |s| && s[|s| - |w|..] == w
      && sep !in w
      && (|w| < |s| ==> s[|s| - |w| - 1] == sep)
  {
    if s != [] {
      LastPieceStep(s, sep);
      if s[0] != sep && sep !in s[1..] {
        assert s == [s[0]] + s[1..];
      } else {
        LastPieceIsMaximalSuffix(s[1..], sep);
        var w' := LastPiece(s[1..], sep);
        assert s[1..][|s| - 1 - |w'|..] == s[|s| - |w'|..];
        if |w'| < |s| - 1 {
          assert s[1..][|s| - 1 - |w'| - 1] == sep;
        } else {
          assert w' == s[1..];
        }
      }
    }
  }

  // ---------------------------------------------------------------------------
  // str.lstrip / str.rstrip / str.strip with a set of characters

  /** `s.lstrip(chars)`: drops every leading character that is in `chars`. */
  function LStrip(s: string, chars: set<char>): (r: string)
    ensures |r| <= |s| && r == s[|s| - |r|..]
    ensures r == [] || r[0] !in chars
  {
    if s != [] && s[0] in chars then LStrip(s[1..], chars) else s
  }

  /** `lstrip` removes only characters from the set. */
  lemma {:induction false} LStripRemovesOnly(s: string, chars: set<char>)
    ensures forall i | 0 <= i < |s| - |LStrip(s, chars)| :: s[i] in chars
  {
    if s != [] && s[0] in chars {
      LStripRemovesOnly(s[1..], chars);
      forall i | 0 < i < |s| - |LStrip(s, chars)| ensures s[i] in chars {
        assert s[i] == s[1..][i - 1];
      }
    }
  }

  /** `s.rstrip(chars)`: drops every trailing character that is in `chars`. */
  function RStrip(s: string, chars: set<char>): (r: string)
    ensures |r| <= |s| && r == s[..|r|]
    ensures r == [] || r[|r| - 1] !in chars
  {
    if s != [] && s[|s| - 1] in chars then RStrip(s[..|s| - 1], chars) else s
  }

  /** `rstrip` removes only characters from the set. */
  lemma {:induction false} RStripRemovesOnly(s: string, chars: set<char>)
    ensures forall i | |RStrip(s, chars)| <= i < |s| :: s[i] in chars
  {
    if s != [] && s[|s| - 1] in chars {
      RStripRemovesOnly(s[..|s| - 1], chars);
    }
  }

  /** The ASCII characters Python's `str.isspace` accepts. */
  const Whitespace: set<char> :=
    {' ', '\t', '\n', '\r', '\U{0b}', '\U{0c}', '\U{1c}', '\U{1d}', '\U{1e}', '\U{1f}'}

  // ---------------------------------------------------------------------------
  // int(s) and str(n) in base 10

  predicate IsDigit(c: char) { '0' <= c <= '9' }

  function DigitValue(c: char): nat
    requires IsDigit(c)
  {
    c as int - '0' as int
  }

  function DigitChar(d: nat): (c: char)
    requires d < 10
    ensures IsDigit(c) && DigitValue(c) == d
  {
    ('0' as int + d) as char
  }

  /** The digit part `int()` accepts: digits, with single underscores allowed
      between two digits. */
  predicate IsDigitGroup(s: string)
  {
    s != [] && IsDigit(s[0]) && DigitGroupTail(s[1..])
  }

  /** What may follow the first digit of a group: digits, and underscores
      each followed by a digit. */
  predicate DigitGroupTail(s: string)
  {
    s == [] || ((IsDigit(s[0]) || (s[0] == '_' && |s| > 1 && IsDigit(s[1]))) && DigitGroupTail(s[1..]))
  }

  /** Every character of `s` is a decimal digit. */
  predicate AllDigits(s: string)
  {
    s == [] || (IsDigit(s[0]) && AllDigits(s[1..]))
  }

  lemma {:induction false} AllDigitsAppend(s: string, d: char)
    requires AllDigits(s) && IsDigit(d)
    ensures AllDigits(s + [d])
  {
    if s != [] {
      assert (s + [d])[1..] == s[1..] + [d];
      AllDigitsAppend(s[1..], d);
    }
  }

  /** A non-empty run of digits is a digit group ending in a digit. */
  lemma {:induction false} AllDigitsGroup(s: string)
    requires s != [] && AllDigits(s)
    ensures IsDigitGroup(s) && IsDigit(s[|s| - 1])
  {
    if |s| > 1 {
      AllDigitsGroup(s[1..]);
      assert s[1..][|s| - 2] == s[|s| - 1];
    }
  }

  /** A run of digits holds no other character. */
  lemma {:induction false} AllDigitsExclude(s: string, c: char)
    requires AllDigits(s) && !IsDigit(c)
    ensures c !in s
  {
    if s != [] {
      AllDigitsExclude(s[1..], c);
    }
  }

  /** The value of a digit group, underscores ignored. */
  function DigitsValue(s: string): nat
  {
    if s == [] then 0
    else if s[|s| - 1] == '_' || !IsDigit(s[|s| - 1]) then DigitsValue(s[..|s| - 1])
    else 10 * DigitsValue(s[..|s| - 1]) + DigitValue(s[|s| - 1])
  }

  /** Python's `int(s)`: surrounding whitespace, an optional sign, then a digit
      group; anything else raises `ValueError`, modelled as `None`. */
  function ParseInt(s: string): Option<int>
  {
    var t := RStrip(LStrip(s, Whitespace), Whitespace);
    var negative := t != [] && t[0] == '-';
    var body := if t != [] && (t[0] == '-' || t[0] == '+') then t[1..] else t;
    var magnitude: int := DigitsValue(body);
    if !IsDigitGroup(body) then None
    else if negative then Some(-magnitude)
    else Some(magnitude)
  }

  /** Python's `str(n)` for a natural number: its decimal digits, no leading zero. */
  function Decimal(n: nat): (s: string)
    ensures s != [] && AllDigits(s)
  {
    if n < 10 then [DigitChar(n)]
    else
      var d := DigitChar(n % 10);
      AllDigitsAppend(Decimal(n / 10), d);
      Decimal(n / 10) + [d]
  }

  lemma {:induction false} DecimalValue(n: nat)
    ensures DigitsValue(Decimal(n)) == n
  {
    if n >= 10 {
      DecimalValue(n / 10);
      var s := Decimal(n);
      assert s[..|s| - 1] == Decimal(n / 10);
    }
  }

  lemma StripNothing(s: string, chars: set<char>)
    requires s != [] && s[0] !in chars && s[|s| - 1] !in chars
    ensures RStrip(LStrip(s, chars), chars) == s
  {
  }

  /** Whitespace stripping leaves a text that starts and ends with a digit alone. */
  lemma StripDigitEnds(s: string)
    requires s != [] && IsDigit(s[0]) && IsDigit(s[|s| - 1])
    ensures RStrip(LStrip(s, Whitespace), Whitespace) == s
  {
    StripNothing(s, Whitespace);
  }

  /** An unsigned digit group that ends in a digit is read as its value. */
  lemma ParseIntGroup(s: string)
    requires IsDigitGroup(s) && IsDigit(s[|s| - 1])
    ensures ParseInt(s) == Some(DigitsValue(s))
  {
    StripDigitEnds(s);
  }

  /** A run of plain digits is read as its decimal value. */
  lemma ParseIntDigits(s: string)
    requires s != [] && AllDigits(s)
    ensures ParseInt(s) == Some(DigitsValue(s))
  {
    AllDigitsGroup(s);
    ParseIntGroup(s);
  }

  /** `int(str(n)) == n`. */
  lemma ParseIntDecimal(n: nat)
    ensures ParseInt(Decimal(n)) == Some(n)
  {
    ParseIntDigits(Decimal(n));
    DecimalValue(n);
  }
}
