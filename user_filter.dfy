/** The roster export filter: from the text of a CSV file it keeps the header line
    and those rows whose first field is an address in an allowed domain. */
module UserFilter {
  import opened Text

  /** Domains a row's address may end with, compared after lowercasing. */
  const AllowedDomains: seq<string> := ["@gmail.com", "@may-bakerng.com"]

  /** `line.split(',')[0]`: the text before the first comma, or the whole line. */
  function FirstField(line: string): (r: string)
    ensures r <= line && ',' !in r
    ensures |r| < |line| ==> line[|r|] == ','
  {
    if line == [] || line[0] == ',' then [] else [line[0]] + FirstField(line[1..])
  }

  /** `allowedDomains.some(domain => email.endsWith(domain))`. */
  predicate AllowedEmail(email: string) {
    exists i :: 0 <= i < |AllowedDomains| && EndsWith(email, AllowedDomains[i])
  }

  /** A data row is kept when it is not blank and its first field, lowercased,
      ends with an allowed domain. */
  predicate KeepRow(line: string) {
    Trim(line) != "" && AllowedEmail(Lower(FirstField(line)))
  }

  /** The kept data rows, in input order. */
  function KeepRows(rows: seq<string>): seq<string> {
    if rows == [] then []
    else
      var last := rows[|rows| - 1];
      KeepRows(rows[..|rows| - 1]) + if KeepRow(last) then [last] else []
  }

  /** The header followed by the kept data rows. */
  function FilteredLines(lines: seq<string>): seq<string>
    requires |lines| >= 1
  {
    [lines[0]] + KeepRows(lines[1..])
  }

  /** Position of the first line feed of `s`, or `|s|` when there is none. */
  function NewlineIndex(s: string): (i: nat)
    ensures i <= |s| && '\n' !in s[..i]
    ensures i < |s| ==> s[i] == '\n'
  {
    if s == [] || s[0] == '\n' then 0
    else
      var i := 1 + NewlineIndex(s[1..]);
      assert s[..i] == [s[0]] + s[1..][..i - 1];
      i
  }

  /** A piece ended by `\r\n` loses its carriage return. */
  function DropCr(piece: string): string {
    if piece != [] && piece[|piece| - 1] == '\r' then piece[..|piece| - 1] else piece
  }

  /** `s.split(/\r?\n/)`: every line feed, with a carriage return just before it,
      separates two lines. */
  function SplitLines(s: string): (lines: seq<string>)
    ensures |lines| >= 1
    ensures forall i :: 0 <= i < |lines| ==> '\n' !in lines[i]
    decreases |s|
  {
    var i := NewlineIndex(s);
    if i == |s| then [s]
    else
      assert '\n' !in DropCr(s[..i]) by {
        assert forall c :: c in DropCr(s[..i]) ==> c in s[..i];
      }
      [DropCr(s[..i])] + SplitLines(s[i + 1..])
  }

  /** `lines.join('\n')`. */
  function JoinLines(lines: seq<string>): string {
    if lines == [] then ""
    else if |lines| == 1 then lines[0]
    else lines[0] + "\n" + JoinLines(lines[1..])
  }

  /** The file text the filter writes for the file text it reads. */
  function FilterText(input: string): string {
    JoinLines(FilteredLines(SplitLines(input)))
  }

  /** The filter's loop: header first, blank rows skipped, matching rows pushed. */
  method FilterUsers(input: string) returns (output: string)
    ensures output == FilterText(input)
  {
    var lines := SplitLines(input);
    var header := lines[0];
    var filtered := [header];
    var i := 1;
    while i < |lines|
      invariant 1 <= i <= |lines|
      invariant filtered == [header] + KeepRows(lines[1..i])
    {
      var line := lines[i];
      KeepRowsStep(lines, i);
      if Trim(line) == "" {
        i := i + 1;
        continue;
      }
      var email := Lower(FirstField(line));
      if AllowedEmail(email) {
        filtered := filtered + [line];
      }
      i := i + 1;
    }
    assert lines[1..i] == lines[1..];
    output := JoinLines(filtered);
  }

  /** One more turn of the filter's loop keeps `lines[i]` or not. */
  lemma KeepRowsStep(lines: seq<string>, i: nat)
    requires 1 <= i < |lines|
    ensures KeepRows(lines[1..i + 1]) == KeepRows(lines[1..i]) + if KeepRow(lines[i]) then [lines[i]] else []
  {
    var rows := lines[1..i + 1];
    assert rows[..|rows| - 1] == lines[1..i] && rows[|rows| - 1] == lines[i];
  }

  /** A row is in the output exactly when it is a data row that passes the test:
      kept rows are the input rows themselves, not their lowercased form. */
  lemma {:induction false} KeptRowsExactly(rows: seq<string>, line: string)
    ensures line in KeepRows(rows) <==> line in rows && KeepRow(line)
  {
    if rows != [] {
      var init := rows[..|rows| - 1];
      KeptRowsExactly(init, line);
      assert rows == init + [rows[|rows| - 1]];
    }
  }

  /** No row made only of whitespace reaches the output. */
  lemma BlankRowsDropped(rows: seq<string>, line: string)
    requires IsBlank(line)
    ensures line !in KeepRows(rows)
  {
    KeptRowsExactly(rows, line);
    TrimEmptyIffBlank(line);
  }

  /** `idx` picks, in increasing order, the positions in `ys` of the elements of `xs`. */
  ghost predicate Embeds(xs: seq<string>, ys: seq<string>, idx: seq<nat>) {
    |idx| == |xs| &&
    (forall k :: 0 <= k < |idx| ==> idx[k] < |ys| && xs[k] == ys[idx[k]]) &&
    (forall k, j :: 0 <= k < j < |idx| ==> idx[k] < idx[j])
  }

  /** The kept rows are a subsequence of the data rows: same order, copied verbatim,
      and every position skipped holds a row that fails the test. */
  lemma {:induction false} KeptRowsInOrder(rows: seq<string>) returns (idx: seq<nat>)
    ensures Embeds(KeepRows(rows), rows, idx)
    ensures forall j :: 0 <= j < |rows| && j !in idx ==> !KeepRow(rows[j])
  {
    if rows == [] {
      idx := [];
    } else {
      var n := |rows| - 1;
      var init := rows[..n];
      var prev := KeptRowsInOrder(init);
      var kept := KeepRows(init);
      EmbedsInPrefix(kept, init, rows, prev);
      if KeepRow(rows[n]) {
        idx := prev + [n];
        assert KeepRows(rows) == kept + [rows[n]];
        EmbedsExtend(kept, rows, prev, n);
      } else {
        idx := prev;
        assert KeepRows(rows) == kept;
      }
      SkippedStaySkipped(init, rows, prev, idx);
    }
  }

  /** An embedding into a prefix is an embedding into the whole sequence. */
  lemma EmbedsInPrefix(kept: seq<string>, init: seq<string>, rows: seq<string>, prev: seq<nat>)
    requires |init| < |rows| && init == rows[..|init|]
    requires Embeds(kept, init, prev)
    ensures forall k :: 0 <= k < |prev| ==> prev[k] < |init| && kept[k] == rows[prev[k]]
    ensures Embeds(kept, rows, prev)
  {
  }

  lemma SkippedStaySkipped(init: seq<string>, rows: seq<string>, prev: seq<nat>, idx: seq<nat>)
    requires |rows| == |init| + 1 && init == rows[..|init|]
    requires forall j :: 0 <= j < |init| && j !in prev ==> !KeepRow(init[j])
    requires forall k :: 0 <= k < |prev| ==> prev[k] in idx
    requires !KeepRow(rows[|init|]) || |init| in idx
    ensures forall j :: 0 <= j < |rows| && j !in idx ==> !KeepRow(rows[j])
  {
    forall j | 0 <= j < |rows| && j !in idx
      ensures !KeepRow(rows[j])
    {
      if j < |init| {
        assert j !in prev;
        assert init[j] == rows[j];
      }
    }
  }

  lemma EmbedsExtend(kept: seq<string>, rows: seq<string>, prev: seq<nat>, n: nat)
    requires n < |rows| && |prev| == |kept|
    requires forall k :: 0 <= k < |prev| ==> prev[k] < n && kept[k] == rows[prev[k]]
    requires forall k, j :: 0 <= k < j < |prev| ==> prev[k] < prev[j]
    ensures Embeds(kept + [rows[n]], rows, prev + [n])
  {
  }

  /** The output never has more lines than the input. */
  lemma {:induction false} KeepRowsShorter(rows: seq<string>)
    ensures |KeepRows(rows)| <= |rows|
  {
    if rows != [] {
      KeepRowsShorter(rows[..|rows| - 1]);
    }
  }

  /** The header always comes first and the output has at most as many
      lines as the input; as text, the output begins with the header. */
  lemma HeaderFirst(input: string)
    ensures var lines := SplitLines(input);
      FilteredLines(lines)[0] == lines[0] && |FilteredLines(lines)| <= |lines| &&
      lines[0] <= FilterText(input)
  {
    var lines := SplitLines(input);
    KeepRowsShorter(lines[1..]);
  }

  /** Rows that pass are left unchanged by filtering again. */
  lemma {:induction false} KeepRowsIdempotent(rows: seq<string>)
    ensures KeepRows(KeepRows(rows)) == KeepRows(rows)
  {
    if rows != [] {
      var n := |rows| - 1;
      KeepRowsIdempotent(rows[..n]);
      if KeepRow(rows[n]) {
        assert KeepRows(rows) == KeepRows(rows[..n]) + [rows[n]];
        KeepRowsAppend(KeepRows(rows[..n]), rows[n]);
      } else {
        assert KeepRows(rows) == KeepRows(rows[..n]);
      }
    }
  }

  lemma KeepRowsAppend(rows: seq<string>, line: string)
    requires KeepRow(line)
    ensures KeepRows(rows + [line]) == KeepRows(rows) + [line]
  {
    assert (rows + [line])[..|rows|] == rows;
  }

  /** For text without carriage returns, joining the split lines gives back the text. */
  lemma {:induction false} JoinSplitNoCr(s: string)
    requires '\r' !in s
    ensures JoinLines(SplitLines(s)) == s
    decreases |s|
  {
    var i := NewlineIndex(s);
    if i < |s| {
      var first, rest := s[..i], s[i + 1..];
      assert s == first + "\n" + rest;
      assert '\r' !in rest && '\r' !in first by {
        assert forall c :: c in rest || c in first ==> c in s;
      }
      JoinSplitNoCr(rest);
      DropCrWithoutCr(first);
      assert SplitLines(s) == [first] + SplitLines(rest);
    }
  }

  /** Splitting lines that hold no line feed and do not end in a carriage return,
      once joined with `\n`, gives the same lines back. */
  lemma {:induction false} SplitJoinRoundTrip(lines: seq<string>)
    requires |lines| >= 1
    requires forall i :: 0 <= i < |lines| ==> '\n' !in lines[i] && !EndsWith(lines[i], "\r")
    ensures SplitLines(JoinLines(lines)) == lines
  {
    var first := lines[0];
    if |lines| == 1 {
      NewlineIndexOfLine(first, "");
      assert first + "" == first;
    } else {
      var rest := JoinLines(lines[1..]);
      assert JoinLines(lines) == first + "\n" + rest;
      DropCrWithoutCr(first);
      SplitFirstPiece(first, first, rest);
      SplitJoinRoundTrip(lines[1..]);
    }
  }

  /** Lines joined with `\r\n`, as a file written with Windows line endings holds them. */
  function JoinCrLf(lines: seq<string>): string {
    if lines == [] then ""
    else if |lines| == 1 then lines[0]
    else lines[0] + "\r\n" + JoinCrLf(lines[1..])
  }

  /** Lines that hold no line feed, joined with `\r\n`, split back into the same
      lines: the carriage return before each line feed is dropped, and one that
      belongs to a line is kept. */
  lemma {:induction false} SplitCrLfRoundTrip(lines: seq<string>)
    requires |lines| >= 1
    requires forall i :: 0 <= i < |lines| ==> '\n' !in lines[i]
    ensures SplitLines(JoinCrLf(lines)) == lines
  {
    var first := lines[0];
    if |lines| == 1 {
      NewlineIndexOfLine(first, "");
      assert first + "" == first;
    } else {
      var rest := JoinCrLf(lines[1..]);
      var piece := first + "\r";
      assert JoinCrLf(lines) == piece + "\n" + rest;
      assert DropCr(piece) == first;
      SplitFirstPiece(first, piece, rest);
      SplitCrLfRoundTrip(lines[1..]);
    }
  }

  /** Lines joined by separators chosen one at a time: separator `k` is `\r\n` when
      `crlf[k]` holds and `\n` otherwise. */
  function JoinMixed(lines: seq<string>, crlf: seq<bool>): string
    requires |crlf| == |lines| - 1
  {
    if |lines| <= 1 then (if lines == [] then "" else lines[0])
    else lines[0] + (if crlf[0] then "\r\n" else "\n") + JoinMixed(lines[1..], crlf[1..])
  }

  /** `split(/\r?\n/)` decides each separator on its own: lines without line feeds,
      joined by any mix of `\n` and `\r\n`, split back into the same lines, as long
      as no line followed by a bare `\n` ends in a carriage return. */
  lemma {:induction false} SplitMixedRoundTrip(lines: seq<string>, crlf: seq<bool>)
    requires |lines| >= 1 && |crlf| == |lines| - 1
    requires forall i :: 0 <= i < |lines| ==> '\n' !in lines[i]
    requires forall k :: 0 <= k < |crlf| && !crlf[k] ==> !EndsWith(lines[k], "\r")
    ensures SplitLines(JoinMixed(lines, crlf)) == lines
  {
    var first := lines[0];
    if |lines| == 1 {
      NewlineIndexOfLine(first, "");
      assert first + "" == first;
    } else {
      var rest := JoinMixed(lines[1..], crlf[1..]);
      var piece := if crlf[0] then first + "\r" else first;
      assert JoinMixed(lines, crlf) == piece + "\n" + rest;
      if !crlf[0] {
        DropCrWithoutCr(first);
      }
      SplitFirstPiece(first, piece, rest);
      SplitMixedRoundTrip(lines[1..], crlf[1..]);
    }
  }

  /** A piece that is a line, optionally followed by a carriage return, and then a
      line feed is split off as that line. */
  lemma SplitFirstPiece(line: string, piece: string, rest: string)
    requires '\n' !in line
    requires piece == line || piece == line + "\r"
    requires DropCr(piece) == line
    ensures SplitLines(piece + "\n" + rest) == [line] + SplitLines(rest)
  {
    var s := piece + "\n" + rest;
    assert '\n' !in piece by {
      assert forall c :: c in piece ==> c in line || c == '\r';
    }
    NewlineIndexOfLine(piece, "\n" + rest);
    assert piece + ("\n" + rest) == s;
    assert s[..|piece|] == piece && s[|piece| + 1..] == rest;
  }

  lemma DropCrWithoutCr(line: string)
    requires !EndsWith(line, "\r") || '\r' !in line
    ensures DropCr(line) == line
  {
    if line != [] {
      assert line[|line| - 1..] == [line[|line| - 1]];
      assert line[|line| - 1] in line;
    }
  }

  /** A line without line feeds, followed by nothing or by a line feed, ends at its length. */
  lemma {:induction false} NewlineIndexOfLine(line: string, rest: string)
    requires '\n' !in line
    requires rest == [] || rest[0] == '\n'
    ensures NewlineIndex(line + rest) == |line|
  {
    if line != [] {
      var s := line + rest;
      assert s[0] == line[0] && s[1..] == line[1..] + rest;
      assert '\n' !in line[1..] by {
        assert forall c :: c in line[1..] ==> c in line;
      }
      NewlineIndexOfLine(line[1..], rest);
    } else {
      assert line + rest == rest;
    }
  }

  /** Every line the filter writes passes the same tests again. */
  lemma FilteredLinesIdempotent(lines: seq<string>)
    requires |lines| >= 1
    ensures FilteredLines(FilteredLines(lines)) == FilteredLines(lines)
  {
    KeepRowsIdempotent(lines[1..]);
    assert FilteredLines(lines)[1..] == KeepRows(lines[1..]);
  }

  /** Filtering the filter's own output changes nothing, provided no line of the
      input ends in a carriage return that the split leaves behind (as in `\r\r\n`). */
  lemma FilterIdempotent(input: string)
    requires forall i :: 0 <= i < |SplitLines(input)| ==> !EndsWith(SplitLines(input)[i], "\r")
    ensures FilterText(FilterText(input)) == FilterText(input)
  {
    var lines := SplitLines(input);
    var out := FilteredLines(lines);
    forall i | 0 <= i < |out|
      ensures '\n' !in out[i] && !EndsWith(out[i], "\r")
    {
      if i > 0 {
        KeptRowsExactly(lines[1..], out[i]);
        assert out[i] in KeepRows(lines[1..]);
        var j :| 0 <= j < |lines[1..]| && lines[1..][j] == out[i];
        assert lines[j + 1] == out[i];
      }
    }
    SplitJoinRoundTrip(out);
    FilteredLinesIdempotent(lines);
  }
}
