/** `read_requirements` from the packaging script: the dependency list is
    the requirements file's lines, stripped, without blank lines, comment
    lines and pip option lines. Whether the file exists and what lines it
    holds are the input; reading it is not modelled. */
module Requirements {
  import opened Strings

  /** The filter of the list comprehension. It strips the line to test for
      blankness, but tests for `#` and `-` on the line as read, so an
      indented comment or option passes. */
  predicate Keep(line: string)
  {
    Strip(line) != "" && !StartsWith(line, "#") && !StartsWith(line, "-")
  }

  /** The comprehension over the file's lines (taken here from the last line
      back, which builds the same list). */
  function Filter(lines: seq<string>): (r: seq<string>)
    ensures |r| <= |lines|
    decreases |lines|
  {
    if lines == [] then []
    else
      var last := lines[|lines| - 1];
      Filter(lines[..|lines| - 1]) + (if Keep(last) then [Strip(last)] else [])
  }

  /** `read_requirements()`: `file` is `None` when there is no requirements
      file, and otherwise its lines as the file iterator yields them. */
  function ReadRequirements(file: Option<seq<string>>): seq<string>
  {
    match file
    case None => []
    case Some(lines) => Filter(lines)
  }

  /** Which lines survive: exactly those with a non-whitespace character
      whose very first character is neither `#` nor `-`. */
  lemma KeepRule(line: string)
    ensures Keep(line) <==> !AllSpace(line) && !(|line| > 0 && (line[0] == '#' || line[0] == '-'))
  {
    StripSpec(line);
  }

  /** A missing requirements file gives no dependencies. */
  lemma MissingFile()
    ensures ReadRequirements(None) == []
  {
  }

  /** Every dependency returned is non-empty and has no whitespace at either
      end. */
  lemma {:induction false} FilterClean(lines: seq<string>)
    ensures forall k :: 0 <= k < |Filter(lines)| ==> Filter(lines)[k] != "" && IsStripped(Filter(lines)[k])
    decreases |lines|
  {
    if lines != [] {
      FilterClean(lines[..|lines| - 1]);
      StripSpec(lines[|lines| - 1]);
    }
  }

  /** The positions of the lines that survive. */
  function KeptIndices(lines: seq<string>): seq<nat>
    decreases |lines|
  {
    if lines == [] then []
    else
      var n := |lines| - 1;
      KeptIndices(lines[..n]) + (if Keep(lines[n]) then [n] else [])
  }

  /** The positions are positions of `lines`. */
  lemma {:induction false} KeptIndicesBound(lines: seq<string>)
    ensures forall k :: 0 <= k < |KeptIndices(lines)| ==> KeptIndices(lines)[k] < |lines|
    decreases |lines|
  {
    if lines != [] {
      KeptIndicesBound(lines[..|lines| - 1]);
    }
  }

  /** The positions are listed in increasing order, so the dependencies come
      out in file order. */
  lemma {:induction false} KeptIndicesIncreasing(lines: seq<string>)
    ensures forall k, l :: 0 <= k < l < |KeptIndices(lines)| ==> KeptIndices(lines)[k] < KeptIndices(lines)[l]
    decreases |lines|
  {
    if lines != [] {
      var n := |lines| - 1;
      KeptIndicesIncreasing(lines[..n]);
      KeptIndicesBound(lines[..n]);
      var before := KeptIndices(lines[..n]);
      var idx := KeptIndices(lines);
      assert idx[..|before|] == before;
      forall k, l | 0 <= k < l < |idx|
        ensures idx[k] < idx[l]
      {
        if l < |before| {
          assert idx[k] == before[k] && idx[l] == before[l];
        } else {
          assert idx[k] == before[k];
        }
      }
    }
  }

  /** The result is an order-preserving selection of the stripped lines: the
      k-th dependency is the stripped form of the k-th surviving line (and
      `KeptIndices` lists those lines in file order). */
  lemma {:induction false} FilterSelects(lines: seq<string>)
    ensures var idx := KeptIndices(lines);
      && |idx| == |Filter(lines)|
      && forall k :: 0 <= k < |idx| ==>
           0 <= idx[k] < |lines| && Keep(lines[idx[k]]) && Filter(lines)[k] == Strip(lines[idx[k]])
    decreases |lines|
  {
    if lines != [] {
      var n := |lines| - 1;
      var init := lines[..n];
      FilterSelects(init);
      var before := KeptIndices(init);
      var idx := KeptIndices(lines);
      var r := Filter(lines);
      assert idx[..|before|] == before && r[..|before|] == Filter(init);
      forall k | 0 <= k < |idx|
        ensures 0 <= idx[k] < |lines| && Keep(lines[idx[k]]) && r[k] == Strip(lines[idx[k]])
      {
        if k < |before| {
          assert idx[k] == before[k] && r[k] == Filter(init)[k];
          assert lines[idx[k]] == init[idx[k]];
        } else {
          assert idx[k] == n && r[k] == Strip(lines[n]);
        }
      }
    }
  }

  /** A line is taken exactly when it passes the filter: every dropped line is
      blank, a comment or an option, and nothing else is dropped. */
  lemma {:induction false} KeptExactly(lines: seq<string>, i: int)
    requires 0 <= i < |lines|
    ensures i in KeptIndices(lines) <==> Keep(lines[i])
    decreases |lines|
  {
    var n := |lines| - 1;
    var init := lines[..n];
    var before := KeptIndices(init);
    var tail: seq<nat> := if Keep(lines[n]) then [n] else [];
    assert KeptIndices(lines) == before + tail;
    if i < n {
      KeptExactly(init, i);
      assert init[i] == lines[i];
      assert i !in tail;
    } else {
      KeptIndicesBound(init);
      assert n !in before;
    }
  }

  /** The surprising case the first-character test lets through: a comment
      or option line indented by whitespace is kept, and what is kept starts
      with the comment or option marker; the same line without the
      indentation is dropped. */
  lemma IndentedCommentKept(indent: string, line: string)
    requires indent != [] && AllSpace(indent)
    requires StartsWith(line, "#") || StartsWith(line, "-")
    ensures !Keep(line)
    ensures Keep(indent + line)
    ensures Strip(indent + line) != [] && Strip(indent + line)[0] == line[0]
    ensures Strip(indent + line) == Strip(line)
  {
    var s := indent + line;
    var i := SkipSpace(s, 0);
    assert s[|indent|] == line[0] && !IsSpace(line[0]);
    assert forall k :: 0 <= k < |indent| ==> s[k] == indent[k];
    assert i == |indent|;
    assert SkipSpaceBack(s, i, |s|) > i;
    assert SkipSpace(line, 0) == 0;
    SkipSpaceBackShift(indent, line, |line|);
    var e := SkipSpaceBack(line, 0, |line|);
    assert s[|indent|..|indent| + e] == line[0..e];
    assert !StartsWith(s, "#") && !StartsWith(s, "-") by {
      assert s[0] == indent[0];
    }
  }

  /** Scanning back over `indent + line` down to where `line` starts ends at
      the same place as scanning back over `line` alone, shifted by the
      indentation. */
  lemma {:induction false} SkipSpaceBackShift(indent: string, line: string, hi: nat)
    requires hi <= |line|
    ensures SkipSpaceBack(indent + line, |indent|, |indent| + hi) == SkipSpaceBack(line, 0, hi) + |indent|
    decreases hi
  {
    if hi > 0 {
      assert (indent + line)[|indent| + hi - 1] == line[hi - 1];
      if IsSpace(line[hi - 1]) {
        SkipSpaceBackShift(indent, line, hi - 1);
      }
    }
  }
}
