/** The knowledge file loader, `load_knowledge` in chatbot.py: every line that
    contains `|` is stripped and split on `|` into exactly a question and an
    answer; the question is stripped and lower-cased, the answer stripped. */
module Knowledge {
  import opened PyStr

  /** `q, a = parts` raises `ValueError` when `parts` does not hold exactly
      two values. `line` is the 0-based position of the offending line in the
      file and `parts` the number of pieces its split produced. */
  datatype LoadError = TooManyValues(line: nat, parts: nat)

  datatype Result<T> = Ok(value: T) | Err(error: LoadError)

  /** What one line of the file contributes. */
  datatype LineParse = Skip | Entry(question: string, answer: string) | TooManyParts(parts: nat)

  /** A stored question: stripped, lower-case, and free of `|`. */
  predicate IsQuestion(q: string) {
    IsStripped(q) && IsLowerCase(q) && '|' !in q
  }

  /** A stored answer: stripped and free of `|`; its case is whatever the
      file had. */
  predicate IsAnswer(a: string) {
    IsStripped(a) && '|' !in a
  }

  /** The loop body of `load_knowledge` for one line. A failing unpack always
      has too many values, never too few: the `|` that selected the line
      survives `strip`. */
  function ParseLine(line: string): (r: LineParse)
    ensures r.TooManyParts? ==> r.parts >= 3
  {
    if '|' !in line then Skip
    else
      CountZero(line, '|');
      StripCount(line, '|');
      var parts := Split(Strip(line));
      if |parts| == 2 then Entry(Lower(Strip(parts[0])), Strip(parts[1]))
      else TooManyParts(|parts|)
  }

  /** `load_knowledge` over the lines of the file, each with its line
      terminator still attached: the first line that cannot be unpacked ends
      loading with an error, every other line is parsed in file order. */
  function Load(lines: seq<string>): (r: Result<(seq<string>, seq<string>)>)
    ensures r.Ok? ==> |r.value.0| == |r.value.1|
  {
    if lines == [] then Ok(([], []))
    else
      var last := |lines| - 1;
      match Load(lines[..last])
      case Err(e) => Err(e)
      case Ok((qs, ans)) =>
        match ParseLine(lines[last])
        case Skip => Ok((qs, ans))
        case Entry(q, a) => Ok((qs + [q], ans + [a]))
        case TooManyParts(n) => Err(TooManyValues(last, n))
  }

  /** The lines that contain `|`, in file order. */
  function BarLines(lines: seq<string>): (r: seq<string>)
    ensures |r| <= |lines|
  {
    if lines == [] then []
    else
      var last := |lines| - 1;
      BarLines(lines[..last]) + (if '|' in lines[last] then [lines[last]] else [])
  }

  /** The file as the inverse of loading writes it: one `q|a` line per entry,
      each followed by the whitespace terminator `eol`. */
  function Render(qs: seq<string>, ans: seq<string>, eol: string): (lines: seq<string>)
    requires |qs| == |ans|
    ensures |lines| == |qs|
  {
    if qs == [] then []
    else
      var last := |qs| - 1;
      Render(qs[..last], ans[..last], eol) + [qs[last] + "|" + ans[last] + eol]
  }

  /** `load_knowledge` as chatbot.py writes it: a loop that appends to the
      `questions` and `answers` lists. */
  method LoadKnowledge(lines: seq<string>) returns (r: Result<(seq<string>, seq<string>)>)
    ensures r == Load(lines)
  {
    var questions: seq<string> := [];
    var answers: seq<string> := [];
    for i := 0 to |lines|
      invariant Load(lines[..i]) == Ok((questions, answers))
    {
      var line := lines[i];
      assert lines[..i + 1][..i] == lines[..i];
      if '|' in line {
        var parts := Split(Strip(line));
        if |parts| != 2 {
          r := Err(TooManyValues(i, |parts|));
          LoadErrSticks(lines, i + 1);
          return;
        }
        questions := questions + [Lower(Strip(parts[0]))];
        answers := answers + [Strip(parts[1])];
      }
    }
    assert lines[..|lines|] == lines;
    r := Ok((questions, answers));
  }

  // ---------------------------------------------------------------------
  // one line

  /** A line is skipped exactly when it has no `|`, parsed into an entry
      exactly when it has one, and fails to unpack exactly when it has two or
      more; the failing split then has one more piece than the line has `|`. */
  lemma ParseLineCases(line: string)
    ensures ParseLine(line).Skip? <==> Count(line, '|') == 0
    ensures ParseLine(line).Entry? <==> Count(line, '|') == 1
    ensures ParseLine(line).TooManyParts? <==> Count(line, '|') >= 2
    ensures ParseLine(line).TooManyParts? ==> ParseLine(line).parts == Count(line, '|') + 1 >= 3
  {
    CountZero(line, '|');
    StripCount(line, '|');
  }

  /** With its only `|` at position `p`, the line is whitespace, then a
      bar-free piece, the `|`, another bar-free piece, and whitespace; `strip`
      keeps exactly the middle three. */
  lemma OneBarShape(line: string, p: int) returns (i: nat, j: nat)
    requires 0 <= p < |line| && line[p] == '|' && Count(line, '|') == 1
    ensures i <= p < j <= |line| && Strip(line) == line[i..j]
    ensures AllSpace(line[..i]) && AllSpace(line[j..])
    ensures '|' !in line[i..p] && '|' !in line[p + 1..j]
  {
    CountOneUnique(line, '|', p);
    i, j := StripBounds(line);
    assert !IsSpace(line[p]);
    forall k | 0 <= k < i ensures IsSpace(line[..i][k]) { assert line[..i][k] == line[k]; }
    forall k | 0 <= k < |line| - j ensures IsSpace(line[j..][k]) { assert line[j..][k] == line[j + k]; }
    var x, y := line[i..p], line[p + 1..j];
    forall k | 0 <= k < |x| ensures x[k] != '|' { assert x[k] == line[i + k]; }
    forall k | 0 <= k < |y| ensures y[k] != '|' { assert y[k] == line[p + 1 + k]; }
  }

  /** With its only `|` at position `p`, the stripped line splits into two
      pieces whose stripped forms are the stripped text on either side of
      `p`. */
  lemma SplitOneBar(line: string, p: int)
    requires 0 <= p < |line| && line[p] == '|' && Count(line, '|') == 1
    ensures |Split(Strip(line))| == 2
    ensures Strip(Split(Strip(line))[0]) == Strip(line[..p])
    ensures Strip(Split(Strip(line))[1]) == Strip(line[p + 1..])
  {
    var i, j := OneBarShape(line, p);
    var x, y := line[i..p], line[p + 1..j];
    assert Strip(line) == x + "|" + y;
    SplitAfterBar(x, y);
    SplitNoBar(y);
    StripDropFront(line, i, p);
    StripDropBack(line, p + 1, j);
  }

  /** With its only `|` at position `p`, a line yields the lower-cased,
      stripped text before `p` as the question and the stripped text after
      `p`, case kept, as the answer. */
  lemma ParseLineFields(line: string, p: int)
    requires 0 <= p < |line| && line[p] == '|' && Count(line, '|') == 1
    ensures ParseLine(line) == Entry(Lower(Strip(line[..p])), Strip(line[p + 1..]))
  {
    assert '|' in line;
    SplitOneBar(line, p);
  }

  /** A line that is parsed into an entry yields a well-formed question and
      answer. */
  lemma ParseLineWellFormed(line: string)
    requires ParseLine(line).Entry?
    ensures IsQuestion(ParseLine(line).question) && IsAnswer(ParseLine(line).answer)
  {
    var parts := Split(Strip(line));
    StripFree(parts[0], '|');
    StripFree(parts[1], '|');
    LowerKeeps(Strip(parts[0]));
  }

  /** Writing a well-formed entry back as `q|a` followed by whitespace and
      parsing it again gives the same entry. */
  lemma ParseLineRender(q: string, a: string, eol: string)
    requires IsQuestion(q) && IsAnswer(a) && AllSpace(eol)
    ensures ParseLine(q + "|" + a + eol) == Entry(q, a)
  {
    var line := q + "|" + a + eol;
    var p := |q|;
    assert line[p] == '|';
    assert line == q + ("|" + (a + eol));
    CountConcat(q, "|" + (a + eol), '|');
    CountConcat("|", a + eol, '|');
    CountConcat(a, eol, '|');
    CountZero(q, '|');
    CountZero(a, '|');
    CountZero(eol, '|');
    ParseLineFields(line, p);
    assert line[..p] == q;
    assert line[p + 1..] == a + eol;
    StripAppendSpaces(a, eol);
    StripStripped(a);
    StripStripped(q);
    LowerOfLowerCase(q);
  }

  // ---------------------------------------------------------------------
  // the whole file

  /** Once a prefix of the file fails to load, the whole file fails with the
      same error. */
  lemma {:induction false} LoadErrSticks(lines: seq<string>, n: nat)
    requires n <= |lines| && Load(lines[..n]).Err?
    ensures Load(lines) == Load(lines[..n])
    decreases |lines| - n
  {
    if n == |lines| {
      assert lines[..n] == lines;
    } else {
      assert lines[..n + 1][..n] == lines[..n];
      LoadErrSticks(lines, n + 1);
    }
  }

  /** Loading succeeds exactly when no line holds two or more `|`. */
  lemma {:induction false} LoadOkIff(lines: seq<string>)
    ensures Load(lines).Ok? <==> forall i :: 0 <= i < |lines| ==> Count(lines[i], '|') <= 1
  {
    if lines != [] {
      var last := |lines| - 1;
      var prefix := lines[..last];
      LoadOkIff(prefix);
      ParseLineCases(lines[last]);
      assert forall i :: 0 <= i < last ==> prefix[i] == lines[i];
    }
  }

  /** On failure the error names the first line that holds two or more `|`,
      together with the number of pieces that line splits into. */
  lemma {:induction false} LoadErrFirst(lines: seq<string>)
    requires Load(lines).Err?
    ensures Load(lines).error.line < |lines|
    ensures Count(lines[Load(lines).error.line], '|') >= 2
    ensures Load(lines).error.parts == Count(lines[Load(lines).error.line], '|') + 1
    ensures forall i :: 0 <= i < Load(lines).error.line ==> Count(lines[i], '|') <= 1
  {
    var last := |lines| - 1;
    var prefix := lines[..last];
    assert forall i :: 0 <= i < last ==> prefix[i] == lines[i];
    if Load(prefix).Err? {
      LoadErrFirst(prefix);
    } else {
      LoadOkIff(prefix);
      ParseLineCases(lines[last]);
    }
  }

  /** On success there is one entry per line that contains `|`, in file
      order, and the k-th entry is what the k-th such line parses into. */
  lemma {:induction false} LoadEntries(lines: seq<string>)
    requires Load(lines).Ok?
    ensures |Load(lines).value.0| == |Load(lines).value.1| == |BarLines(lines)|
    ensures forall k :: 0 <= k < |BarLines(lines)| ==>
      ParseLine(BarLines(lines)[k]) == Entry(Load(lines).value.0[k], Load(lines).value.1[k])
  {
    if lines != [] {
      var last := |lines| - 1;
      LoadEntries(lines[..last]);
      ParseLineCases(lines[last]);
      CountZero(lines[last], '|');
    }
  }

  /** Every stored question is stripped, lower-case and free of `|`; every
      stored answer is stripped and free of `|`. */
  lemma LoadWellFormed(lines: seq<string>)
    requires Load(lines).Ok?
    ensures forall k :: 0 <= k < |Load(lines).value.0| ==> IsQuestion(Load(lines).value.0[k])
    ensures forall k :: 0 <= k < |Load(lines).value.1| ==> IsAnswer(Load(lines).value.1[k])
  {
    LoadEntries(lines);
    forall k | 0 <= k < |BarLines(lines)|
      ensures IsQuestion(Load(lines).value.0[k]) && IsAnswer(Load(lines).value.1[k])
    {
      ParseLineWellFormed(BarLines(lines)[k]);
    }
  }

  lemma {:induction false} BarLinesConcat(a: seq<string>, b: seq<string>)
    ensures BarLines(a + b) == BarLines(a) + BarLines(b)
    decreases |b|
  {
    if b == [] {
      assert a + b == a;
    } else {
      var last := |b| - 1;
      assert (a + b)[..|a + b| - 1] == a + b[..last];
      BarLinesConcat(a, b[..last]);
    }
  }

  /** Two successful loads whose files have the same lines with `|` load the
      same lists. */
  lemma LoadSameBarLines(f1: seq<string>, f2: seq<string>)
    requires Load(f1).Ok? && Load(f2).Ok? && BarLines(f1) == BarLines(f2)
    ensures Load(f1) == Load(f2)
  {
    LoadEntries(f1);
    LoadEntries(f2);
    var bars := BarLines(f1);
    var (q1, a1) := Load(f1).value;
    var (q2, a2) := Load(f2).value;
    forall k | 0 <= k < |bars| ensures q1[k] == q2[k] && a1[k] == a2[k] {
      assert ParseLine(bars[k]) == Entry(q1[k], a1[k]);
    }
    assert q1 == q2 && a1 == a2;
  }

  /** A line without `|` changes neither whether loading succeeds nor, when
      it does, what is loaded, wherever it stands in the file. */
  lemma LoadIgnoresPlainLine(before: seq<string>, line: string, after: seq<string>)
    requires '|' !in line
    ensures Load(before + [line] + after).Ok? == Load(before + after).Ok?
    ensures Load(before + after).Ok? ==> Load(before + [line] + after) == Load(before + after)
  {
    var with, without := before + [line] + after, before + after;
    CountZero(line, '|');
    LoadOkIff(with);
    LoadOkIff(without);
    if Load(without).Ok? {
      forall i | 0 <= i < |with| ensures Count(with[i], '|') <= 1 {
        if i < |before| { assert with[i] == without[i]; }
        else if i > |before| { assert with[i] == without[i - 1]; }
      }
      BarLinesConcat(before + [line], after);
      BarLinesConcat(before, [line]);
      BarLinesConcat(before, after);
      assert BarLines([line]) == [] by { assert [line][..0] == []; }
      LoadSameBarLines(with, without);
    } else {
      var i :| 0 <= i < |without| && Count(without[i], '|') > 1;
      if i < |before| { assert with[i] == without[i]; }
      else { assert with[i + 1] == without[i]; }
    }
  }

  lemma SnocLast<T>(s: seq<T>)
    requires |s| > 0
    ensures s[..|s| - 1] + [s[|s| - 1]] == s
  {
  }

  /** One more line that parses into an entry appends that entry. */
  lemma LoadSnocEntry(prefix: seq<string>, line: string)
    requires Load(prefix).Ok? && ParseLine(line).Entry?
    ensures Load(prefix + [line]) == Ok((Load(prefix).value.0 + [ParseLine(line).question],
                                         Load(prefix).value.1 + [ParseLine(line).answer]))
  {
  }

  /** Loading a file written by `Render` from well-formed entries gives those
      entries back. */
  lemma {:induction false} LoadRender(qs: seq<string>, ans: seq<string>, eol: string)
    requires |qs| == |ans| && AllSpace(eol)
    requires forall k :: 0 <= k < |qs| ==> IsQuestion(qs[k]) && IsAnswer(ans[k])
    ensures Load(Render(qs, ans, eol)) == Ok((qs, ans))
  {
    if qs != [] {
      var last := |qs| - 1;
      var prefix := Render(qs[..last], ans[..last], eol);
      var line := qs[last] + "|" + ans[last] + eol;
      assert Render(qs, ans, eol) == prefix + [line];
      LoadRender(qs[..last], ans[..last], eol);
      ParseLineRender(qs[last], ans[last], eol);
      LoadSnocEntry(prefix, line);
      SnocLast(qs);
      SnocLast(ans);
    }
  }

  /** Loading is a normal form: writing out what was loaded and loading that
      again gives the same lists. */
  lemma LoadRenderLoad(lines: seq<string>)
    requires Load(lines).Ok?
    ensures Load(Render(Load(lines).value.0, Load(lines).value.1, "\n")) == Load(lines)
  {
    LoadWellFormed(lines);
    LoadRender(Load(lines).value.0, Load(lines).value.1, "\n");
  }

  /** A file holding the one line `q|a` followed by the whitespace `eol`
      (empty, or a line terminator), with `q` lower-case and both sides
      stripped and free of `|`, loads as `([q], [a])`. */
  lemma LoadSingleLine(q: string, a: string, eol: string)
    requires IsQuestion(q) && IsAnswer(a) && AllSpace(eol)
    ensures Load([q + "|" + a + eol]) == Ok(([q], [a]))
  {
    var line := q + "|" + a + eol;
    ParseLineRender(q, a, eol);
    assert Load([]) == Ok(([], []));
    LoadSnocEntry([], line);
    assert [] + [line] == [line];
    assert Load([]).value.0 + [q] == [q] && Load([]).value.1 + [a] == [a];
  }
}
