/** String operations of the two runtimes the system is written in, on
    `seq<char>`: TypeScript's `split`, `join`, `trim`, `padStart`,
    `includes`, `toLowerCase`, and Rust's `split_whitespace`, `contains`,
    `to_lowercase` and byte length. Case mapping is restricted to ASCII. */
module Text {
  import opened Seqs

  /** The characters `String.prototype.trim` removes: ECMAScript WhiteSpace
      and LineTerminator code points. */
  predicate IsJsWhitespace(c: char) {
    var n := c as int;
    n == 0x09 || n == 0x0A || n == 0x0B || n == 0x0C || n == 0x0D || n == 0x20
    || n == 0xA0 || n == 0x1680 || 0x2000 <= n <= 0x200A || n == 0x2028 || n == 0x2029
    || n == 0x202F || n == 0x205F || n == 0x3000 || n == 0xFEFF
  }

  /** The characters Rust's `char::is_whitespace` accepts (the Unicode
      White_Space property). Unlike the set above it has U+0085 and lacks U+FEFF. */
  predicate IsRustWhitespace(c: char) {
    var n := c as int;
    (0x09 <= n <= 0x0D) || n == 0x20 || n == 0x85 || n == 0xA0 || n == 0x1680
    || (0x2000 <= n <= 0x200A) || n == 0x2028 || n == 0x2029 || n == 0x202F
    || n == 0x205F || n == 0x3000
  }

  function LowerChar(c: char): char {
    if 'A' <= c <= 'Z' then (c as int + 32) as char else c
  }

  /** ASCII lower-casing, character by character. */
  function Lower(s: string): string {
    seq(|s|, i requires 0 <= i < |s| => LowerChar(s[i]))
  }

  predicate StartsWith(s: string, prefix: string) {
    |prefix| <= |s| && s[..|prefix|] == prefix
  }

  /** `t` occurs in `s` starting at index `i`. */
  predicate OccursAt(s: string, t: string, i: int) {
    0 <= i <= |s| - |t| && s[i..i + |t|] == t
  }

  /** `t` occurs in `s` as a contiguous block (`includes` / `contains`). */
  predicate Contains(s: string, t: string) {
    exists i | 0 <= i <= |s| - |t| :: OccursAt(s, t, i)
  }

  /** `s` contains at least one of `ts`. */
  predicate ContainsAny(s: string, ts: seq<string>) {
    exists k :: 0 <= k < |ts| && Contains(s, ts[k])
  }

  /** Every occurrence of `from` replaced by `to` (`replace(/,/g, ' ')`). */
  function ReplaceChar(s: string, from: char, to: char): string {
    seq(|s|, i requires 0 <= i < |s| => if s[i] == from then to else s[i])
  }

  /** Splits at every separator character, keeping empty pieces, as
      TypeScript's `split(' ')` and Rust's `split(pred)` do. */
  function SplitOn(s: string, isSep: char -> bool): (r: seq<string>)
    ensures |r| >= 1
    ensures forall i, j :: 0 <= i < |r| && 0 <= j < |r[i]| ==> !isSep(r[i][j])
    decreases |s|
  {
    if |s| == 0 then [""]
    else
      var rest := SplitOn(s[1..], isSep);
      if isSep(s[0]) then [""] + rest
      else
        var r := [[s[0]] + rest[0]] + rest[1..];
        assert forall i :: 1 <= i < |r| ==> r[i] == rest[i];
        r
  }

  /** The pieces joined with `sep` between neighbours (`join`). */
  function Join(ts: seq<string>, sep: string): string
    decreases |ts|
  {
    if |ts| == 0 then ""
    else if |ts| == 1 then ts[0]
    else ts[0] + sep + Join(ts[1..], sep)
  }

  function TrimStart(s: string, ws: char -> bool): (r: string)
    ensures |r| <= |s| && r == s[|s| - |r|..]
    ensures |r| > 0 ==> !ws(r[0])
    decreases |s|
  {
    if |s| > 0 && ws(s[0]) then TrimStart(s[1..], ws) else s
  }

  function TrimEnd(s: string, ws: char -> bool): string
    decreases |s|
  {
    if |s| > 0 && ws(s[|s| - 1]) then TrimEnd(s[..|s| - 1], ws) else s
  }

  /** TypeScript's `trim()`. */
  function TrimJs(s: string): string {
    TrimEnd(TrimStart(s, IsJsWhitespace), IsJsWhitespace)
  }

  /** Rust's `split_whitespace()`: the non-empty runs of non-whitespace. */
  function Words(s: string): seq<string> {
    Filter(SplitOn(s, IsRustWhitespace), (w: string) => |w| > 0)
  }

  /** TypeScript's `padStart(2, '0')`. */
  function PadTwo(s: string): string {
    if |s| >= 2 then s else seq(2 - |s|, _ => '0') + s
  }

  /** Number of bytes of the UTF-8 encoding, which is what Rust's
      `str::len` counts. */
  function Utf8Length(s: string): nat
    decreases |s|
  {
    if |s| == 0 then 0
    else
      var n := s[0] as int;
      (if n < 0x80 then 1 else if n < 0x800 then 2 else if n < 0x10000 then 3 else 4)
      + Utf8Length(s[1..])
  }

  lemma ContainsEmpty(s: string)
    ensures Contains(s, "")
  {
    assert OccursAt(s, "", 0);
  }

  /** Substring containment is transitive. */
  lemma ContainsTransitive(a: string, b: string, c: string)
    requires Contains(a, b) && Contains(b, c)
    ensures Contains(a, c)
  {
    var i :| 0 <= i <= |a| - |b| && OccursAt(a, b, i);
    var j :| 0 <= j <= |b| - |c| && OccursAt(b, c, j);
    assert forall k :: 0 <= k < |b| ==> a[i + k] == b[k];
    assert a[i + j..i + j + |c|] == b[j..j + |c|];
    assert OccursAt(a, c, i + j);
  }

  /** Lower-casing preserves containment. */
  lemma LowerContains(a: string, b: string)
    requires Contains(a, b)
    ensures Contains(Lower(a), Lower(b))
  {
    var i :| 0 <= i <= |a| - |b| && OccursAt(a, b, i);
    assert forall k :: 0 <= k < |b| ==> a[i + k] == b[k];
    assert Lower(a)[i..i + |b|] == Lower(b);
    assert OccursAt(Lower(a), Lower(b), i);
  }

  /** Splitting a piece free of separators followed by more text. */
  lemma {:induction false} SplitOnPrefix(w: string, rest: string, isSep: char -> bool)
    requires forall j :: 0 <= j < |w| ==> !isSep(w[j])
    ensures SplitOn(w + rest, isSep) == [w + SplitOn(rest, isSep)[0]] + SplitOn(rest, isSep)[1..]
    decreases |w|
  {
    if |w| > 0 {
      assert (w + rest)[1..] == w[1..] + rest;
      SplitOnPrefix(w[1..], rest, isSep);
      assert [w[0]] + (w[1..] + SplitOn(rest, isSep)[0]) == w + SplitOn(rest, isSep)[0];
    } else {
      var r := SplitOn(rest, isSep);
      assert w + rest == rest;
      assert w + r[0] == r[0];
      assert [r[0]] + r[1..] == r;
    }
  }

  /** Splitting undoes joining, provided no piece holds a separator. */
  lemma {:induction false} SplitJoin(ts: seq<string>, sep: char, isSep: char -> bool)
    requires |ts| >= 1
    requires isSep(sep)
    requires forall i, j :: 0 <= i < |ts| && 0 <= j < |ts[i]| ==> !isSep(ts[i][j])
    ensures SplitOn(Join(ts, [sep]), isSep) == ts
    decreases |ts|
  {
    if |ts| == 1 {
      SplitOnPrefix(ts[0], "", isSep);
      assert SplitOn("", isSep) == [""];
      assert ts[0] + "" == ts[0];
      assert Join(ts, [sep]) == ts[0];
    } else {
      var tail := Join(ts[1..], [sep]);
      SplitJoin(ts[1..], sep, isSep);
      assert Join(ts, [sep]) == ts[0] + ([sep] + tail);
      SplitOnPrefix(ts[0], [sep] + tail, isSep);
      assert ([sep] + tail)[1..] == tail;
      assert SplitOn([sep] + tail, isSep) == [""] + ts[1..];
      assert ts[0] + "" == ts[0];
      assert ts == [ts[0]] + ts[1..];
    }
  }

  /** Every piece with `p` put in front. */
  function PrefixEach(ts: seq<string>, p: string): (r: seq<string>)
    ensures |r| == |ts| && forall i :: 0 <= i < |ts| ==> r[i] == p + ts[i]
  {
    seq(|ts|, i requires 0 <= i < |ts| => p + ts[i])
  }

  /** Splitting at the first character of a longer separator: every piece
      after the first keeps the rest of the separator in front. */
  lemma {:induction false} SplitJoinPrefixed(ts: seq<string>, sep: char, p: string, isSep: char -> bool)
    requires |ts| >= 1
    requires isSep(sep)
    requires forall j :: 0 <= j < |p| ==> !isSep(p[j])
    requires forall i, j :: 0 <= i < |ts| && 0 <= j < |ts[i]| ==> !isSep(ts[i][j])
    ensures SplitOn(Join(ts, [sep] + p), isSep) == [ts[0]] + PrefixEach(ts[1..], p)
    decreases |ts|
  {
    if |ts| == 1 {
      SplitOnPiece(ts[0], isSep);
      assert PrefixEach(ts[1..], p) == [];
    } else {
      var rest := ts[1..];
      var tail := Join(rest, [sep] + p);
      var s := SplitOn(tail, isSep);
      SplitJoinPrefixed(rest, sep, p, isSep);
      PrefixEachCons(rest, p);
      var after := [sep] + (p + tail);
      assert Join(ts, [sep] + p) == ts[0] + after by {
        assert Join(ts, [sep] + p) == ts[0] + ([sep] + p) + tail;
        SeparatorRegroup(ts[0], sep, p, tail);
      }
      var a := SplitOn(after, isSep);
      SplitAfterSeparator(sep, p, tail, isSep);
      assert a[0] == "" && a[1..] == PrefixEach(rest, p);
      SplitOnPrefix(ts[0], after, isSep);
      assert ts[0] + a[0] == ts[0];
    }
  }

  lemma PrefixEachCons(ts: seq<string>, p: string)
    requires |ts| >= 1
    ensures PrefixEach(ts, p) == [p + ts[0]] + PrefixEach(ts[1..], p)
  {
  }

  /** Joining with a doubled separator character and splitting again
      puts an empty piece between every two neighbours. */
  lemma {:induction false} SplitJoinDoubled(ts: seq<string>, sep: char, isSep: char -> bool)
    requires |ts| >= 1
    requires isSep(sep)
    requires forall i, j :: 0 <= i < |ts| && 0 <= j < |ts[i]| ==> !isSep(ts[i][j])
    ensures SplitOn(Join(ts, [sep, sep]), isSep) == Spread(ts, "")
    decreases |ts|
  {
    if |ts| == 1 {
      SplitOnPiece(ts[0], isSep);
    } else {
      var rest := ts[1..];
      var tail := Join(rest, [sep, sep]);
      SplitJoinDoubled(rest, sep, isSep);
      var after := [sep] + ([sep] + tail);
      assert Join(ts, [sep, sep]) == ts[0] + after by {
        assert Join(ts, [sep, sep]) == ts[0] + [sep, sep] + tail;
        DoubledRegroup(ts[0], sep, tail);
      }
      var a := SplitOn(after, isSep);
      SplitAtSeparator(sep, [sep] + tail, isSep);
      SplitAtSeparator(sep, tail, isSep);
      var x := SplitOn(tail, isSep);
      assert a == [""] + ([""] + x);
      assert a[0] == "" && a[1..] == [""] + x;
      SplitOnPrefix(ts[0], after, isSep);
      assert ts[0] + a[0] == ts[0];
      ConsTwo(ts[0], "", x);
      calc {
        SplitOn(Join(ts, [sep, sep]), isSep);
        SplitOn(ts[0] + after, isSep);
        [ts[0] + a[0]] + a[1..];
        [ts[0]] + ([""] + x);
        [ts[0], ""] + x;
        Spread(ts, "");
      }
    }
  }

  lemma ConsTwo<T>(x: T, y: T, xs: seq<T>)
    ensures [x] + ([y] + xs) == [x, y] + xs
  {
  }

  lemma SplitAtSeparator(sep: char, tail: string, isSep: char -> bool)
    requires isSep(sep)
    ensures SplitOn([sep] + tail, isSep) == [""] + SplitOn(tail, isSep)
  {
    assert ([sep] + tail)[1..] == tail;
  }

  lemma DoubledRegroup(a: string, sep: char, tail: string)
    ensures a + [sep, sep] + tail == a + ([sep] + ([sep] + tail))
  {
  }

  /** A piece free of separators splits into itself. */
  lemma SplitOnPiece(w: string, isSep: char -> bool)
    requires forall j :: 0 <= j < |w| ==> !isSep(w[j])
    ensures SplitOn(w, isSep) == [w]
  {
    SplitOnPrefix(w, "", isSep);
    assert SplitOn("", isSep) == [""];
    assert w + "" == w;
  }

  lemma SeparatorRegroup(a: string, sep: char, p: string, tail: string)
    ensures a + ([sep] + p) + tail == a + ([sep] + (p + tail))
  {
  }

  /** Splitting right after a separator character. */
  lemma SplitAfterSeparator(sep: char, p: string, tail: string, isSep: char -> bool)
    requires isSep(sep)
    requires forall j :: 0 <= j < |p| ==> !isSep(p[j])
    ensures SplitOn([sep] + (p + tail), isSep) ==
      [""] + ([p + SplitOn(tail, isSep)[0]] + SplitOn(tail, isSep)[1..])
  {
    assert ([sep] + (p + tail))[1..] == p + tail;
    SplitOnPrefix(p, tail, isSep);
  }

  /** Joining undoes splitting on a single separator character: `SplitOn`
      loses nothing. */
  lemma {:induction false} JoinSplit(s: string, sep: char, isSep: char -> bool)
    requires forall c :: isSep(c) <==> c == sep
    ensures Join(SplitOn(s, isSep), [sep]) == s
    decreases |s|
  {
    if |s| > 0 {
      var rest := SplitOn(s[1..], isSep);
      JoinSplit(s[1..], sep, isSep);
      if isSep(s[0]) {
        assert ([""] + rest)[1..] == rest;
      } else {
        var r := [[s[0]] + rest[0]] + rest[1..];
        assert r[1..] == rest[1..];
        if |rest| > 1 {
          assert Join(rest, [sep]) == rest[0] + [sep] + Join(rest[1..], [sep]);
        }
      }
    }
  }

  /** A join starts with the first piece and ends with the last. */
  lemma {:induction false} JoinEnds(ts: seq<string>, sep: string)
    requires |ts| >= 1
    ensures |Join(ts, sep)| >= |ts[0]| && Join(ts, sep)[..|ts[0]|] == ts[0]
    ensures var j := Join(ts, sep); var last := ts[|ts| - 1];
      |j| >= |last| && j[|j| - |last|..] == last
    decreases |ts|
  {
    if |ts| > 1 {
      JoinEnds(ts[1..], sep);
      assert Join(ts, sep) == (ts[0] + sep) + Join(ts[1..], sep);
    }
  }

  /** Four pieces joined, written out. */
  lemma JoinFour(a: string, b: string, c: string, d: string, sep: string)
    ensures Join([a, b, c, d], sep) == a + sep + b + sep + c + sep + d
  {
    assert Join([d], sep) == d;
    assert Join([c, d], sep) == c + sep + d by { assert [c, d][1..] == [d]; }
    assert Join([b, c, d], sep) == b + sep + (c + sep + d) by { assert [b, c, d][1..] == [c, d]; }
    assert Join([a, b, c, d], sep) == a + sep + (b + sep + (c + sep + d)) by { assert [a, b, c, d][1..] == [b, c, d]; }
  }

  lemma ReplaceCharConcat(a: string, b: string, from: char, to: char)
    ensures ReplaceChar(a + b, from, to) == ReplaceChar(a, from, to) + ReplaceChar(b, from, to)
  {
  }

  /** Replacing a character that occurs only in the separators rewrites
      just the separators. */
  lemma {:induction false} ReplaceCharJoin(ts: seq<string>, sep: string, from: char, to: char)
    requires forall i, j :: 0 <= i < |ts| && 0 <= j < |ts[i]| ==> ts[i][j] != from
    ensures ReplaceChar(Join(ts, sep), from, to) == Join(ts, ReplaceChar(sep, from, to))
    decreases |ts|
  {
    if |ts| == 1 {
      assert ReplaceChar(ts[0], from, to) == ts[0];
    } else if |ts| > 1 {
      ReplaceCharJoin(ts[1..], sep, from, to);
      ReplaceCharConcat(ts[0] + sep, Join(ts[1..], sep), from, to);
      ReplaceCharConcat(ts[0], sep, from, to);
      assert ReplaceChar(ts[0], from, to) == ts[0];
    }
  }

  /** Trimming a string that neither starts nor ends with whitespace leaves
      it unchanged. */
  lemma TrimJsNoop(s: string)
    requires |s| > 0 ==> !IsJsWhitespace(s[0]) && !IsJsWhitespace(s[|s| - 1])
    ensures TrimJs(s) == s
  {
  }

  /** `Words` recovers words joined by single spaces. */
  lemma WordsJoin(ws: seq<string>)
    requires |ws| >= 1
    requires forall i :: 0 <= i < |ws| ==> |ws[i]| > 0
    requires forall i, j :: 0 <= i < |ws| && 0 <= j < |ws[i]| ==> !IsRustWhitespace(ws[i][j])
    ensures Words(Join(ws, " ")) == ws
  {
    SplitJoin(ws, ' ', IsRustWhitespace);
    FilterKeepsAll(ws, (w: string) => |w| > 0);
  }
}
