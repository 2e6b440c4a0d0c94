/** The two string splits `runai_list` performs on the captured output of `runai list`:
    the output into lines at every newline (dgx/rlist.py:37), and each line into cells at runs
    of two or more whitespace characters (dgx/rlist.py:39). */
module Split {

  /** Python's `str.isspace`, which is the class `\s` matches in a `str` regular expression. */
  predicate IsSpace(c: char) {
    var n := c as int;
    n == 0x20 || 0x09 <= n <= 0x0D || 0x1C <= n <= 0x1F || n == 0x85 || n == 0xA0 || n == 0x1680
    || 0x2000 <= n <= 0x200A || n == 0x2028 || n == 0x2029 || n == 0x202F || n == 0x205F || n == 0x3000
  }

  predicate AllSpace(s: string) {
    forall i :: 0 <= i < |s| ==> IsSpace(s[i])
  }

  /** No two whitespace characters stand next to each other in `s`. */
  predicate NoDoubleSpace(s: string) {
    forall i :: 0 <= i < |s| - 1 ==> !IsSpace(s[i]) || !IsSpace(s[i + 1])
  }

  function CountChar(s: string, c: char): nat {
    if s == [] then 0 else (if s[0] == c then 1 else 0) + CountChar(s[1..], c)
  }

  /** `sep.join(parts)`. */
  function Join(parts: seq<string>, sep: string): string {
    if parts == [] then []
    else if |parts| == 1 then parts[0]
    else parts[0] + sep + Join(parts[1..], sep)
  }

  // ----------------------------------------------------------------------------------------
  // Lines

  /** The pieces between newlines, empty ones included (dgx/rlist.py:37). */
  function SplitLines(s: string): (lines: seq<string>)
    ensures |lines| == CountChar(s, '\n') + 1
    ensures forall k :: 0 <= k < |lines| ==> '\n' !in lines[k]
  {
    if s == [] then [[]]
    else if s[0] == '\n' then [[]] + SplitLines(s[1..])
    else
      var rest := SplitLines(s[1..]);
      [[s[0]] + rest[0]] + rest[1..]
  }

  /** Joining the lines with newlines gives the text back. */
  lemma {:induction false} JoinSplitLines(s: string)
    ensures Join(SplitLines(s), "\n") == s
  {
    if s == [] {
    } else if s[0] == '\n' {
      JoinSplitLines(s[1..]);
      assert SplitLines(s)[1..] == SplitLines(s[1..]);
    } else {
      var rest := SplitLines(s[1..]);
      JoinSplitLines(s[1..]);
      var lines := SplitLines(s);
      assert lines[0] == [s[0]] + rest[0];
      if |rest| > 1 {
        assert lines[1..] == rest[1..];
        var more := "\n" + Join(rest[1..], "\n");
        ConcatAssoc([s[0]] + rest[0], "\n", Join(rest[1..], "\n"));
        ConcatAssoc(rest[0], "\n", Join(rest[1..], "\n"));
        ConcatAssoc([s[0]], rest[0], more);
        assert Join(lines, "\n") == [s[0]] + s[1..];
      }
    }
  }

  lemma {:induction false} SplitLinesSingle(a: string)
    requires '\n' !in a
    ensures SplitLines(a) == [a]
  {
    if a != [] {
      assert '\n' !in a[1..];
      SplitLinesSingle(a[1..]);
      assert [a[0]] + a[1..] == a;
    }
  }

  lemma {:induction false} SplitLinesCons(a: string, rest: string)
    requires '\n' !in a
    ensures SplitLines(a + "\n" + rest) == [a] + SplitLines(rest)
  {
    var s := a + "\n" + rest;
    if a == [] {
      assert s[1..] == rest;
    } else {
      assert s[0] == a[0] && s[1..] == a[1..] + "\n" + rest;
      SplitLinesCons(a[1..], rest);
      assert [a[0]] + a[1..] == a;
    }
  }

  /** Splitting newline-free lines joined with newlines gives the lines back. */
  lemma {:induction false} SplitJoinLines(lines: seq<string>)
    requires |lines| >= 1
    requires forall k :: 0 <= k < |lines| ==> '\n' !in lines[k]
    ensures SplitLines(Join(lines, "\n")) == lines
  {
    if |lines| == 1 {
      SplitLinesSingle(lines[0]);
    } else {
      SplitJoinLines(lines[1..]);
      SplitLinesCons(lines[0], Join(lines[1..], "\n"));
      assert [lines[0]] + lines[1..] == lines;
    }
  }

  // ----------------------------------------------------------------------------------------
  // Cells

  /** `s` opens with a run of two or more whitespace characters: `\s{2,}` matches at its start. */
  predicate RunAtStart(s: string) {
    |s| >= 2 && IsSpace(s[0]) && IsSpace(s[1])
  }

  /** `s` without its leading whitespace. */
  function TrimStartSpace(s: string): (r: string)
    ensures |r| <= |s| && r == s[|s| - |r|..]
    ensures AllSpace(s[..|s| - |r|])
    ensures r == [] || !IsSpace(r[0])
    ensures |s| >= 1 && IsSpace(s[0]) ==> |r| < |s|
    ensures |s| >= 2 && IsSpace(s[0]) && IsSpace(s[1]) ==> |r| <= |s| - 2
  {
    if s != [] && IsSpace(s[0]) then
      var r := TrimStartSpace(s[1..]);
      assert s[..|s| - |r|] == [s[0]] + s[1..][..|s| - 1 - |r|];
      r
    else
      s
  }

  /** The regular-expression split of dgx/rlist.py:39. The leftmost match of `\s{2,}` starts at
      the first of two adjacent whitespace characters and, being greedy, takes the whole run, so
      `s` is cut at every maximal run of two or more whitespace characters; a run at either end
      leaves an empty cell there. */
  function SplitCells(s: string): (cells: seq<string>)
    ensures |cells| >= 1 && cells[0] <= s
    decreases |s|
  {
    if s == [] then [[]]
    else if RunAtStart(s) then
      var rest := TrimStartSpace(s);
      [[]] + SplitCells(rest)
    else
      var tail := SplitCells(s[1..]);
      [[s[0]] + tail[0]] + tail[1..]
  }

  /** The separator runs `re.split` removes; `Interleave` puts them back. */
  function Separators(s: string): seq<string>
    decreases |s|
  {
    if s == [] then []
    else if RunAtStart(s) then
      var rest := TrimStartSpace(s);
      [s[..|s| - |rest|]] + Separators(rest)
    else
      Separators(s[1..])
  }

  /** A run that `\s{2,}` matches. */
  predicate IsSeparator(sep: string) {
    |sep| >= 2 && AllSpace(sep)
  }

  /** `cells[0] + seps[0] + cells[1] + ... + cells[n-1]`. */
  function Interleave(cells: seq<string>, seps: seq<string>): string
    requires |cells| == |seps| + 1
    decreases |seps|
  {
    if seps == [] then cells[0] else cells[0] + seps[0] + Interleave(cells[1..], seps[1..])
  }

  /** The shape of a decomposition by maximal runs: no cell holds a double whitespace, no
      cell touches a separator with whitespace, and only the first and the last cell may be
      empty. */
  predicate CleanCells(cells: seq<string>) {
    && |cells| >= 1
    && (forall k :: 0 <= k < |cells| ==> NoDoubleSpace(cells[k]))
    && (forall k :: 0 <= k < |cells| - 1 ==> cells[k] == [] || !IsSpace(cells[k][|cells[k]| - 1]))
    && (forall k :: 0 < k < |cells| ==> cells[k] == [] || !IsSpace(cells[k][0]))
    && (forall k :: 0 < k < |cells| - 1 ==> cells[k] != [])
  }

  lemma FirstCellEmpty(s: string)
    ensures SplitCells(s)[0] == [] && |SplitCells(s)| > 1 ==> RunAtStart(s)
  {
  }

  /** An empty cell in front of a clean decomposition whose first cell does not start with
      whitespace, and is not empty unless it is the only one, keeps it clean. */
  lemma CleanAfterEmpty(tail: seq<string>)
    requires CleanCells(tail)
    requires tail[0] == [] || !IsSpace(tail[0][0])
    requires |tail| > 1 ==> tail[0] != []
    ensures CleanCells([[]] + tail)
  {
    var cells := [[]] + tail;
    forall k | 0 < k < |cells| ensures cells[k] == tail[k - 1] { }
  }

  /** Replacing the first cell of a clean decomposition by a longer one that keeps the same
      shape keeps it clean. */
  lemma CleanWithHead(tail: seq<string>, head: string)
    requires CleanCells(tail)
    requires NoDoubleSpace(head) && head != []
    requires |tail| > 1 ==> !IsSpace(head[|head| - 1])
    ensures CleanCells([head] + tail[1..])
  {
    var cells := [head] + tail[1..];
    forall k | 0 < k < |cells| ensures cells[k] == tail[k] { }
  }

  /** A character in front of a cell keeps it free of double whitespace unless both it and
      the cell's first character are whitespace. */
  lemma ConsNoDoubleSpace(x: char, c: string)
    requires NoDoubleSpace(c)
    requires c == [] || !IsSpace(x) || !IsSpace(c[0])
    ensures NoDoubleSpace([x] + c)
  {
    var first := [x] + c;
    forall i | 0 <= i < |first| - 1 ensures !IsSpace(first[i]) || !IsSpace(first[i + 1]) {
      if i > 0 {
        assert first[i] == c[i - 1] && first[i + 1] == c[i];
      }
    }
  }

  /** Every split is a clean decomposition. */
  lemma {:induction false} SplitCellsClean(s: string)
    ensures CleanCells(SplitCells(s))
    decreases |s|
  {
    if s == [] {
    } else if RunAtStart(s) {
      var rest := TrimStartSpace(s);
      var tail := SplitCells(rest);
      SplitCellsClean(rest);
      FirstCellEmpty(rest);
      assert tail[0] != [] ==> tail[0][0] == rest[0];
      CleanAfterEmpty(tail);
    } else {
      var tail := SplitCells(s[1..]);
      SplitCellsClean(s[1..]);
      FirstCellEmpty(s[1..]);
      var head := [s[0]] + tail[0];
      assert tail[0] != [] ==> tail[0][0] == s[1];
      ConsNoDoubleSpace(s[0], tail[0]);
      assert |tail| > 1 ==> !IsSpace(head[|head| - 1]) by {
        if |tail| > 1 && tail[0] == [] {
          assert s[1..][1] == s[2];
        }
      }
      CleanWithHead(tail, head);
    }
  }

  lemma InterleaveEmptyHead(cells: seq<string>, sep: string, seps: seq<string>)
    requires |cells| == |seps| + 1
    ensures Interleave([[]] + cells, [sep] + seps) == sep + Interleave(cells, seps)
  {
    var longer, more := [[]] + cells, [sep] + seps;
    assert longer[0] == [] && more[0] == sep;
    assert longer[1..] == cells && more[1..] == seps;
    assert Interleave(longer, more) == longer[0] + more[0] + Interleave(cells, seps);
    assert [] + sep == sep;
  }

  lemma InterleaveLongerHead(x: char, cells: seq<string>, seps: seq<string>)
    requires |cells| == |seps| + 1
    ensures Interleave([[x] + cells[0]] + cells[1..], seps) == [x] + Interleave(cells, seps)
  {
    var longer := [[x] + cells[0]] + cells[1..];
    assert longer[0] == [x] + cells[0];
    if seps != [] {
      assert longer[1..] == cells[1..];
      var tail := seps[0] + Interleave(cells[1..], seps[1..]);
      ConcatAssoc(cells[0], seps[0], Interleave(cells[1..], seps[1..]));
      ConcatAssoc([x], cells[0], tail);
    }
  }

  lemma ConcatAssoc<T>(a: seq<T>, b: seq<T>, c: seq<T>)
    ensures a + (b + c) == (a + b) + c
  {
  }

  /** Putting the separators back between the cells gives the line back: splitting loses
      nothing but the separator runs. */
  lemma {:induction false} SplitCellsReassemble(s: string)
    ensures |Separators(s)| == |SplitCells(s)| - 1
    ensures forall k :: 0 <= k < |Separators(s)| ==> IsSeparator(Separators(s)[k])
    ensures Interleave(SplitCells(s), Separators(s)) == s
    decreases |s|
  {
    if s == [] {
    } else if RunAtStart(s) {
      SplitCellsReassemble(TrimStartSpace(s));
      ReassembleAfterRun(s);
    } else {
      SplitCellsReassemble(s[1..]);
      ReassembleAfterChar(s);
    }
  }

  /** The three facts of `SplitCellsReassemble` about one string. */
  predicate Reassembles(s: string) {
    && |Separators(s)| == |SplitCells(s)| - 1
    && (forall k :: 0 <= k < |Separators(s)| ==> IsSeparator(Separators(s)[k]))
    && Interleave(SplitCells(s), Separators(s)) == s
  }

  /** The step of `SplitCellsReassemble` over a leading separator run. */
  lemma ReassembleAfterRun(s: string)
    requires RunAtStart(s) && Reassembles(TrimStartSpace(s))
    ensures Reassembles(s)
  {
    var rest := TrimStartSpace(s);
    var sep := s[..|s| - |rest|];
    var cells, seps := SplitCells(rest), Separators(rest);
    assert IsSeparator(sep);
    InterleaveEmptyHead(cells, sep, seps);
    PrefixSuffix(s, |s| - |rest|);
  }

  lemma PrefixSuffix(s: string, n: int)
    requires 0 <= n <= |s|
    ensures s[..n] + s[n..] == s
  {
  }

  /** The step of `SplitCellsReassemble` over a first character that starts no run. */
  lemma ReassembleAfterChar(s: string)
    requires s != [] && !RunAtStart(s) && Reassembles(s[1..])
    ensures Reassembles(s)
  {
    InterleaveLongerHead(s[0], SplitCells(s[1..]), Separators(s[1..]));
    assert [s[0]] + s[1..] == s;
  }

  lemma {:induction false} SplitCellsSingle(c: string)
    requires NoDoubleSpace(c)
    ensures SplitCells(c) == [c]
  {
    if c != [] {
      assert !RunAtStart(c) by {
        if |c| >= 2 { assert !IsSpace(c[0]) || !IsSpace(c[1]); }
      }
      SplitCellsSingle(c[1..]);
      assert [c[0]] + c[1..] == c;
    }
  }

  lemma {:induction false} TrimStartSpaceAfter(sep: string, rest: string)
    requires AllSpace(sep)
    requires rest == [] || !IsSpace(rest[0])
    ensures TrimStartSpace(sep + rest) == rest
    decreases |sep|
  {
    if sep == [] {
      assert sep + rest == rest;
    } else {
      var s := sep + rest;
      assert s[0] == sep[0] && IsSpace(s[0]);
      assert s[1..] == sep[1..] + rest;
      assert AllSpace(sep[1..]) by {
        assert forall i :: 0 <= i < |sep[1..]| ==> sep[1..][i] == sep[i + 1];
      }
      TrimStartSpaceAfter(sep[1..], rest);
    }
  }

  /** A line that starts with a separator starts with an empty cell. */
  lemma SplitCellsSeparatorFirst(sep: string, rest: string)
    requires IsSeparator(sep)
    requires rest == [] || !IsSpace(rest[0])
    ensures SplitCells(sep + rest) == [[]] + SplitCells(rest)
  {
    var s := sep + rest;
    assert s[0] == sep[0] && s[1] == sep[1];
    TrimStartSpaceAfter(sep, rest);
  }

  /** A character that does not start a separator joins the first cell. */
  lemma SplitCellsConsChar(s: string)
    requires s != [] && !RunAtStart(s)
    ensures SplitCells(s) == [[s[0]] + SplitCells(s[1..])[0]] + SplitCells(s[1..])[1..]
  {
  }

  /** A cell that is followed by a separator and a cell not starting with whitespace is split
      off whole. */
  lemma {:induction false} SplitCellsAfterSeparator(c: string, sep: string, rest: string)
    requires NoDoubleSpace(c) && (c == [] || !IsSpace(c[|c| - 1]))
    requires IsSeparator(sep)
    requires rest == [] || !IsSpace(rest[0])
    ensures SplitCells(c + sep + rest) == [c] + SplitCells(rest)
  {
    if c == [] {
      assert c + sep + rest == sep + rest;
      SplitCellsSeparatorFirst(sep, rest);
    } else {
      var s := c + sep + rest;
      var c' := c[1..];
      assert s[0] == c[0];
      assert !RunAtStart(s) by {
        if |c| >= 2 { assert s[1] == c[1]; } else { assert s[1] == sep[0]; }
      }
      assert s[1..] == c' + sep + rest;
      assert NoDoubleSpace(c') && (c' == [] || !IsSpace(c'[|c'| - 1])) by {
        assert forall i :: 0 <= i < |c'| ==> c'[i] == c[i + 1];
      }
      SplitCellsAfterSeparator(c', sep, rest);
      SplitCellsConsChar(s);
      assert [c[0]] + c' == c;
    }
  }

  lemma InterleaveStart(cells: seq<string>, seps: seq<string>)
    requires |cells| == |seps| + 1
    ensures cells[0] <= Interleave(cells, seps)
  {
  }

  lemma CleanCellsTail(cells: seq<string>)
    requires CleanCells(cells) && |cells| >= 2
    ensures CleanCells(cells[1..])
  {
    forall k | 0 <= k < |cells| - 1 ensures cells[1..][k] == cells[k + 1] { }
  }

  /** The decomposition into cells and separators is unique: splitting the interleaving of a
      clean decomposition gives back exactly its cells. */
  lemma {:induction false} SplitCellsRoundTrip(cells: seq<string>, seps: seq<string>)
    requires CleanCells(cells) && |seps| == |cells| - 1
    requires forall k :: 0 <= k < |seps| ==> IsSeparator(seps[k])
    ensures SplitCells(Interleave(cells, seps)) == cells
    decreases |seps|
  {
    if seps == [] {
      SplitCellsSingle(cells[0]);
    } else {
      var rest := Interleave(cells[1..], seps[1..]);
      CleanCellsTail(cells);
      SplitCellsRoundTrip(cells[1..], seps[1..]);
      InterleaveStart(cells[1..], seps[1..]);
      assert rest == [] || !IsSpace(rest[0]) by {
        if cells[1] != [] {
          assert rest[0] == cells[1][0];
        } else {
          assert |cells| == 2;
        }
      }
      SplitCellsAfterSeparator(cells[0], seps[0], rest);
      assert [cells[0]] + cells[1..] == cells;
    }
  }

  /** Cells without a double whitespace and without whitespace at either end, joined with two
      spaces, split back into the same cells; a single space inside a cell stays there. */
  lemma {:induction false} SplitCellsJoinRoundTrip(cells: seq<string>)
    requires |cells| >= 1
    requires forall k :: 0 <= k < |cells| ==>
      cells[k] != [] && !IsSpace(cells[k][0]) && !IsSpace(cells[k][|cells[k]| - 1]) && NoDoubleSpace(cells[k])
    ensures SplitCells(Join(cells, "  ")) == cells
  {
    if |cells| == 1 {
      SplitCellsSingle(cells[0]);
    } else {
      var rest := Join(cells[1..], "  ");
      SplitCellsJoinRoundTrip(cells[1..]);
      assert rest[0] == cells[1][0];
      SplitCellsAfterSeparator(cells[0], "  ", rest);
      assert [cells[0]] + cells[1..] == cells;
    }
  }

  predicate NoSpace(w: string) {
    forall i :: 0 <= i < |w| ==> !IsSpace(w[i])
  }

  /** Two words joined by one space form a cell with no double whitespace and no whitespace
      at either end. */
  lemma TwoWords(w1: string, w2: string)
    requires w1 != [] && NoSpace(w1) && w2 != [] && NoSpace(w2)
    ensures NoDoubleSpace(w1 + " " + w2)
    ensures (w1 + " " + w2)[0] == w1[0] && (w1 + " " + w2)[|w1| + |w2|] == w2[|w2| - 1]
  {
    var b := w1 + " " + w2;
    forall i | 0 <= i < |b| - 1 ensures !IsSpace(b[i]) || !IsSpace(b[i + 1]) {
      if i < |w1| { assert b[i] == w1[i]; } else { assert b[i + 1] == w2[i - |w1|]; }
    }
  }

  /** Three clean cells with separators between them split back into those cells. */
  lemma ThreeCells(a: string, b: string, c: string, sep: string)
    requires IsSeparator(sep)
    requires a != [] && NoDoubleSpace(a) && !IsSpace(a[|a| - 1])
    requires b != [] && NoDoubleSpace(b) && !IsSpace(b[0]) && !IsSpace(b[|b| - 1])
    requires NoDoubleSpace(c) && (c == [] || !IsSpace(c[0]))
    ensures SplitCells(a + sep + b + sep + c) == [a, b, c]
  {
    var rest := b + sep + c;
    var whole := a + sep + rest;
    assert whole == a + sep + b + sep + c;
    assert rest[0] == b[0];
    SplitCellsSingle(c);
    SplitCellsAfterSeparator(b, sep, c);
    SplitCellsAfterSeparator(a, sep, rest);
  }

  /** A cell made of two words with one space between them, flanked by separators (such as
      two spaces), is kept whole rather than cut at the single space. */
  lemma SingleSpaceStays(a: string, w1: string, w2: string, c: string, sep: string)
    requires a != [] && NoSpace(a) && w1 != [] && NoSpace(w1) && w2 != [] && NoSpace(w2) && c != [] && NoSpace(c)
    requires IsSeparator(sep)
    ensures SplitCells(a + sep + (w1 + " " + w2) + sep + c) == [a, w1 + " " + w2, c]
  {
    TwoWords(w1, w2);
    assert NoDoubleSpace(a) && NoDoubleSpace(c);
    ThreeCells(a, w1 + " " + w2, c, sep);
  }

  // ----------------------------------------------------------------------------------------
  // Counting runs

  /** A maximal run of two or more whitespace characters starts at `i`. */
  predicate RunStartsAt(s: string, i: nat)
    requires i < |s|
  {
    i + 1 < |s| && IsSpace(s[i]) && IsSpace(s[i + 1]) && (i == 0 || !IsSpace(s[i - 1]))
  }

  function RunsFrom(s: string, i: nat): nat
    requires i <= |s|
    decreases |s| - i
  {
    if i == |s| then 0 else (if RunStartsAt(s, i) then 1 else 0) + RunsFrom(s, i + 1)
  }

  /** The number of maximal runs of two or more whitespace characters in `s`. */
  function Runs(s: string): nat {
    RunsFrom(s, 0)
  }

  lemma {:induction false} RunsFromShift(s: string, d: nat, i: nat)
    requires d <= i <= |s|
    requires i == d ==> d == 0 || i == |s| || !IsSpace(s[d - 1]) || !IsSpace(s[d])
    ensures RunsFrom(s, i) == RunsFrom(s[d..], i - d)
    decreases |s| - i
  {
    if i < |s| {
      RunsFromShift(s, d, i + 1);
      assert RunStartsAt(s, i) == RunStartsAt(s[d..], i - d);
    }
  }

  lemma {:induction false} RunsFromSkip(s: string, i: nat, j: nat)
    requires 1 <= i <= j <= |s|
    requires forall k :: i - 1 <= k < j - 1 ==> IsSpace(s[k])
    ensures RunsFrom(s, i) == RunsFrom(s, j)
    decreases j - i
  {
    if i < j {
      RunsFromSkip(s, i + 1, j);
    }
  }

  /** A line with k maximal runs of two or more whitespace characters splits into k + 1 cells. */
  lemma {:induction false} SplitCellsCount(s: string)
    ensures |SplitCells(s)| == Runs(s) + 1
    decreases |s|
  {
    if s == [] {
    } else if RunAtStart(s) {
      var rest := TrimStartSpace(s);
      var d := |s| - |rest|;
      assert RunStartsAt(s, 0);
      assert forall k :: 0 <= k < d - 1 ==> IsSpace(s[..d][k]);
      RunsFromSkip(s, 1, d);
      RunsFromShift(s, d, d);
      SplitCellsCount(rest);
    } else {
      assert !RunStartsAt(s, 0);
      RunsFromShift(s, 1, 1);
      SplitCellsCount(s[1..]);
    }
  }
}
