/**
 `update_lines_vector`: folding the output of a child process, read from a pipe
 in chunks of arbitrary size, into a vector of lines split at '\n'.
 A NULL vector (nothing read yet) is `None`.

 The C function stores the pieces after the first at `lines_length + i`, one slot
 too far whenever the old vector is not empty. `UpdateBlockAsWritten` and
 `CollectLinesAsWritten` model it as written; `UpdateLinesCorrected` and
 `CollectLinesCorrected` model the evidently intended append.
 */
module LinesVector {
  import opened Wrappers
  import opened GStr
  import opened CVector

  /** No line holds a newline character. */
  predicate NoNewlines(lines: seq<string>)
  {
    forall i :: 0 <= i < |lines| ==> '\n' !in lines[i]
  }

  predicate EndsInNewline(line: string)
  {
    |line| > 0 && line[|line| - 1] == '\n'
  }

  /** The C string held by the read buffer once `line[line_size] = '\0'` is
      stored: the bytes read, cut at the first NUL among them. */
  function CString(chunk: string): (r: string)
    ensures '\0' !in r
    ensures r <= chunk
    ensures '\0' !in chunk ==> r == chunk
    ensures '\0' in chunk ==> |r| < |chunk| && chunk[|r|] == '\0'
  {
    if '\0' in chunk then chunk[..IndexOf(chunk, '\0')] else chunk
  }

  /** One call of `update_lines_vector(lines, buf)`, corrected: the pieces of
      `buf` after the first follow the old lines directly in both non-empty
      branches (see `GlueBranchAsWritten` and `NewlineBranchAsWritten` for the code). */
  function UpdateLinesCorrected(lines: Option<seq<string>>, buf: string): (r: seq<string>)
    ensures (lines.None? || lines.value == []) ==> r == Split(buf, '\n')
    ensures lines.Some? && lines.value != [] && buf == "" ==> r == lines.value
    ensures lines.Some? && lines.value != [] && buf != "" && NoNewlines(lines.value) ==>
      |r| == |lines.value| + |Split(buf, '\n')| - 1
    ensures lines.Some? && lines.value != [] && buf != "" && NoNewlines(lines.value) ==>
      r[..|lines.value| - 1] == lines.value[..|lines.value| - 1]
    ensures lines.Some? && lines.value != [] && buf != "" && NoNewlines(lines.value) ==>
      r == Glue(lines.value, Split(buf, '\n'))
    ensures (lines.None? || NoNewlines(lines.value)) ==> NoNewlines(r)
  {
    var additional := Split(buf, '\n');
    var prev := if lines.None? then [] else lines.value;
    if |prev| == 0 then additional
    else if EndsInNewline(prev[|prev| - 1]) then prev + additional
    else if |additional| == 0 then prev
    else
      prev[..|prev| - 1] + [prev[|prev| - 1] + additional[0]] + additional[1..]
  }

  /** The lines vector after the read loop of the capturing thread functions has
      consumed `chunks` in order, with the corrected update; `None` when nothing
      was read. */
  function CollectLinesCorrected(chunks: seq<string>): (r: Option<seq<string>>)
    ensures r.None? <==> chunks == []
    ensures r.Some? ==> NoNewlines(r.value)
  {
    if |chunks| == 0 then None
    else Some(UpdateLinesCorrected(CollectLinesCorrected(chunks[..|chunks| - 1]), CString(chunks[|chunks| - 1])))
  }

  /** All text the read loop passes on, chunk after chunk. */
  function Consumed(chunks: seq<string>): string
  {
    if |chunks| == 0 then "" else Consumed(chunks[..|chunks| - 1]) + CString(chunks[|chunks| - 1])
  }

  /** The raw bytes of all chunks, concatenated. */
  function Flatten(chunks: seq<string>): string
  {
    if |chunks| == 0 then "" else Flatten(chunks[..|chunks| - 1]) + chunks[|chunks| - 1]
  }

  /** One step of the fold: adding `buf` to the lines of `text` gives the lines of `text + buf`. */
  lemma UpdateLinesExtendsSplit(text: string, buf: string)
    ensures UpdateLinesCorrected(Some(Split(text, '\n')), buf) == Split(text + buf, '\n')
  {
    var prev := Split(text, '\n');
    if text == "" {
      assert text + buf == buf;
    } else if buf == "" {
      assert text + buf == text;
    } else {
      assert '\n' !in prev[|prev| - 1];
      PiecesAppend(text, buf, '\n');
    }
  }

  /** Chunk boundaries are invisible: the lines collected from any chunking are the
      split of everything read. */
  lemma {:induction false} CollectLinesIsSplit(chunks: seq<string>)
    ensures chunks == [] ==> CollectLinesCorrected(chunks) == None
    ensures chunks != [] ==> CollectLinesCorrected(chunks) == Some(Split(Consumed(chunks), '\n'))
    decreases |chunks|
  {
    if |chunks| > 0 {
      var init := chunks[..|chunks| - 1];
      var buf := CString(chunks[|chunks| - 1]);
      CollectLinesIsSplit(init);
      if init == [] {
        assert Consumed(chunks) == "" + buf;
        assert "" + buf == buf;
      } else {
        UpdateLinesExtendsSplit(Consumed(init), buf);
      }
    }
  }

  /** Without NUL bytes in the output, the collected lines are exactly the split of
      the concatenated output, however it was chunked. */
  lemma {:induction false} ReadLoopSplitsOutput(chunks: seq<string>)
    requires chunks != []
    requires forall i :: 0 <= i < |chunks| ==> '\0' !in chunks[i]
    ensures CollectLinesCorrected(chunks) == Some(Split(Flatten(chunks), '\n'))
  {
    CollectLinesIsSplit(chunks);
    ConsumedIsFlatten(chunks);
  }

  lemma {:induction false} ConsumedIsFlatten(chunks: seq<string>)
    requires forall i :: 0 <= i < |chunks| ==> '\0' !in chunks[i]
    ensures Consumed(chunks) == Flatten(chunks)
    decreases |chunks|
  {
    if |chunks| > 0 {
      ConsumedIsFlatten(chunks[..|chunks| - 1]);
    }
  }

  /** Two chunkings of the same output collect the same lines. */
  lemma ChunkingInvisible(xs: seq<string>, ys: seq<string>)
    requires xs != [] && ys != []
    requires forall i :: 0 <= i < |xs| ==> '\0' !in xs[i]
    requires forall i :: 0 <= i < |ys| ==> '\0' !in ys[i]
    requires Flatten(xs) == Flatten(ys)
    ensures CollectLinesCorrected(xs) == CollectLinesCorrected(ys)
  {
    ReadLoopSplitsOutput(xs);
    ReadLoopSplitsOutput(ys);
  }

  /** No line the read loop leaves in its vector contains a newline, so
      `update_lines_vector`'s branch for a last line ending in '\n' is never taken
      on a vector it built itself. */
  lemma NewlineBranchUnreachable(chunks: seq<string>)
    ensures var w := CollectLinesAsWritten(chunks);
      w.Some? && w.value != [] ==> !EndsInNewline(w.value[|w.value| - 1])
  {
    LastLineOpen(CollectLinesAsWritten(chunks));
  }

  /** The same holds of the corrected read loop. */
  lemma NewlineBranchUnreachableCorrected(chunks: seq<string>)
    ensures var c := CollectLinesCorrected(chunks);
      c.Some? && c.value != [] ==> !EndsInNewline(c.value[|c.value| - 1])
  {
    var c := CollectLinesCorrected(chunks);
    LastLineOpen(c);
  }

  lemma LastLineOpen(r: Option<seq<string>>)
    requires r.Some? ==> NoNewlines(r.value)
    ensures r.Some? && r.value != [] ==> !EndsInNewline(r.value[|r.value| - 1])
  {
    if r.Some? && r.value != [] {
      assert '\n' !in r.value[|r.value| - 1];
    }
  }

  /** The slots of the reallocated vector as the C code fills them when the old last
      line does end in a newline: the first piece goes to the old length `L`
      (`lines_length - 1` after the increment), but the copy loop stores piece `i`
      at `lines_length + i`, from `L + 2` on, so slot `L + 1` is never written. */
  function NewlineBranchAsWritten(lines: seq<string>, buf: string): (r: seq<Slot>)
    requires |lines| > 0
    ensures |r| == |lines| + |Split(buf, '\n')| + 2
    ensures r[..|lines|] == Strs(lines)
  {
    var additional := Split(buf, '\n');
    if |additional| == 0 then Strs(lines) + [Null, Null]
    else Strs(lines) + [Str(additional[0]), Unset] + Strs(additional[1..]) + [Null]
  }

  /** As written, any non-empty `buf` leaves an unwritten slot before the NULL
      terminator, so the next walk of the vector reads an uninitialised pointer. */
  lemma NewlineBranchAsWrittenLosesTerminator(lines: seq<string>, buf: string)
    requires |lines| > 0 && buf != ""
    ensures Terminated(NewlineBranchAsWritten(lines, buf)) == None
  {
    var a := Split(buf, '\n');
    assert NewlineBranchAsWritten(lines, buf) == Strs(lines + [a[0]]) + [Unset] + (Strs(a[1..]) + [Null]);
    TerminatedHitsUnset(lines + [a[0]], Strs(a[1..]) + [Null]);
  }

  /** The concrete case: a vector `["a\n"]` fed the chunk `"b"`. */
  lemma NewlineBranchCounterexample()
    ensures NewlineBranchAsWritten(["a\n"], "b") == [Str("a\n"), Str("b"), Unset, Null]
    ensures Terminated(NewlineBranchAsWritten(["a\n"], "b")) == None
  {
    assert Split("b", '\n') == ["b"] by {
      SinglePiece("b", '\n');
    }
    NewlineBranchAsWrittenLosesTerminator(["a\n"], "b");
  }

  /** Corrected: every old line is kept and every piece of `buf` follows it. */
  lemma NewlineBranchCorrected(lines: seq<string>, buf: string)
    requires |lines| > 0 && EndsInNewline(lines[|lines| - 1])
    ensures UpdateLinesCorrected(Some(lines), buf) == lines + Split(buf, '\n')
    ensures Terminated(Strs(UpdateLinesCorrected(Some(lines), buf)) + [Null]) == Some(lines + Split(buf, '\n'))
  {
    TerminatedStrs(lines + Split(buf, '\n'), []);
    assert Strs(lines + Split(buf, '\n')) + [Null] + [] == Strs(lines + Split(buf, '\n')) + [Null];
  }

  // ---------------------------------------------------------------------------
  // The glue branch and the read loop as written

  /** The text of `buf` up to its first newline: what the glue branch appends to
      the last line (`additional_lines[0]`, or nothing when `buf` is empty, since
      `g_strconcat` stops at the NULL). */
  function FirstLine(buf: string): (r: string)
    ensures '\n' !in r
    ensures r <= buf
    ensures '\n' in buf ==> |r| < |buf| && buf[|r|] == '\n'
    ensures '\n' !in buf ==> r == buf
    ensures buf != "" ==> r == Split(buf, '\n')[0]
  {
    FirstPiece(buf, '\n');
    if '\n' in buf then buf[..IndexOf(buf, '\n')] else buf
  }

  /** The slots of the reallocated vector as the C code fills them when the old last
      line does not end in a newline: the first piece is appended to the last line,
      slot `L` keeps the old NULL terminator, and the copy loop stores the other
      pieces from `L + 1` on, behind that NULL. */
  function GlueBranchAsWritten(lines: seq<string>, buf: string): (r: seq<Slot>)
    requires |lines| > 0
    ensures |r| == |lines| + |Split(buf, '\n')| + 1
    ensures r[|lines|] == Null
    ensures Terminated(r) == Some(Glue(lines, [FirstLine(buf)]))
  {
    var additional := Split(buf, '\n');
    var L := |lines|;
    var walked := Glue(lines, [FirstLine(buf)]);
    if |additional| == 0 then
      assert FirstLine(buf) == "";
      GlueEmpty(lines);
      TerminatedStrs(lines, []);
      assert Strs(lines) + [Null] + [] == Strs(lines) + [Null];
      Strs(lines) + [Null]
    else
      TerminatedStrs(walked, Strs(additional[1..]) + [Null]);
      assert Strs(walked) + [Null] + (Strs(additional[1..]) + [Null])
          == Strs(walked) + [Null] + Strs(additional[1..]) + [Null];
      Strs(walked) + [Null] + Strs(additional[1..]) + [Null]
  }

  /** One call of `update_lines_vector(lines, buf)` as written: the slots of the
      block it returns. `lines` is what walking the argument gives (`None` for NULL). */
  function UpdateBlockAsWritten(lines: Option<seq<string>>, buf: string): (r: seq<Slot>)
    ensures (lines.None? || lines.value == []) ==> Terminated(r) == Some(Split(buf, '\n'))
    ensures lines.Some? && lines.value != [] && !EndsInNewline(lines.value[|lines.value| - 1]) ==>
      Terminated(r) == Some(Glue(lines.value, [FirstLine(buf)]))
    ensures lines.Some? && lines.value != [] && EndsInNewline(lines.value[|lines.value| - 1]) && buf != "" ==>
      Terminated(r) == None
  {
    var additional := Split(buf, '\n');
    var prev := if lines.None? then [] else lines.value;
    if |prev| == 0 then
      TerminatedStrs(additional, []);
      assert Strs(additional) + [Null] + [] == Strs(additional) + [Null];
      Strs(additional) + [Null]
    else if EndsInNewline(prev[|prev| - 1]) then
      (if buf == "" then NewlineBranchAsWritten(prev, buf)
       else
         NewlineBranchAsWrittenLosesTerminator(prev, buf);
         NewlineBranchAsWritten(prev, buf))
    else GlueBranchAsWritten(prev, buf)
  }

  /** The lines the block returned by `update_lines_vector` holds when walked, for
      the arguments whose walk succeeds: NULL, an empty vector, or a last line
      without a trailing newline. */
  function WalkedUpdate(lines: Option<seq<string>>, buf: string): (r: seq<string>)
    requires lines.Some? && lines.value != [] ==> !EndsInNewline(lines.value[|lines.value| - 1])
    ensures Terminated(UpdateBlockAsWritten(lines, buf)) == Some(r)
    ensures (lines.None? || NoNewlines(lines.value)) ==> NoNewlines(r)
  {
    if lines.None? || lines.value == [] then Split(buf, '\n')
    else
      GlueKeepsNoNewlines(lines.value, FirstLine(buf));
      Glue(lines.value, [FirstLine(buf)])
  }

  /** Appending newline-free text to the last of newline-free lines keeps them so. */
  lemma GlueKeepsNoNewlines(lines: seq<string>, s: string)
    requires |lines| > 0 && '\n' !in s
    ensures NoNewlines(lines) ==> NoNewlines(Glue(lines, [s]))
  {
    if NoNewlines(lines) {
      var last := lines[|lines| - 1];
      assert '\n' !in last;
      var g := Glue(lines, [s]);
      assert g == lines[..|lines| - 1] + [last + s];
      forall i | 0 <= i < |g|
        ensures '\n' !in g[i]
      {
        if i < |lines| - 1 {
          assert g[i] == lines[i];
        } else {
          assert g[i] == last + s;
        }
      }
    }
  }

  /** The lines the read loop's vector holds when walked, with `update_lines_vector`
      as written; `None` when nothing was read. */
  function CollectLinesAsWritten(chunks: seq<string>): (r: Option<seq<string>>)
    ensures r.None? <==> chunks == []
    ensures r.Some? ==> NoNewlines(r.value)
  {
    if |chunks| == 0 then None
    else
      var prev := CollectLinesAsWritten(chunks[..|chunks| - 1]);
      LastLineOpen(prev);
      Some(WalkedUpdate(prev, CString(chunks[|chunks| - 1])))
  }

  /** The text each chunk adds when it is not the first with any text: its C string
      up to the first newline, concatenated over `chunks`. */
  function FirstLines(chunks: seq<string>): (r: string)
    ensures '\n' !in r
  {
    if |chunks| == 0 then "" else FirstLine(CString(chunks[0])) + FirstLines(chunks[1..])
  }

  /** Reference description of what the code collects, read from the front: the
      first chunk with any text is split into lines in full; every later chunk only
      extends the last line with its text up to its first newline. */
  function VisibleLines(chunks: seq<string>): (r: seq<string>)
  {
    if |chunks| == 0 then []
    else if CString(chunks[0]) == "" then VisibleLines(chunks[1..])
    else Glue(Split(CString(chunks[0]), '\n'), [FirstLines(chunks[1..])])
  }

  lemma {:induction false} FirstLinesSnoc(chunks: seq<string>, c: string)
    ensures FirstLines(chunks + [c]) == FirstLines(chunks) + FirstLine(CString(c))
    decreases |chunks|
  {
    var x := FirstLine(CString(c));
    if |chunks| == 0 {
      assert chunks + [c] == [c];
      assert [c][1..] == [];
      assert FirstLines([c]) == x + "";
      assert x + "" == "" + x;
    } else {
      var y := FirstLine(CString(chunks[0]));
      assert (chunks + [c])[0] == chunks[0];
      assert (chunks + [c])[1..] == chunks[1..] + [c];
      FirstLinesSnoc(chunks[1..], c);
      assert FirstLines(chunks + [c]) == y + (FirstLines(chunks[1..]) + x);
      assert y + (FirstLines(chunks[1..]) + x) == (y + FirstLines(chunks[1..])) + x;
    }
  }

  /** `VisibleLines` grows one chunk at a time as the as-written update does. */
  lemma {:induction false} VisibleLinesSnoc(chunks: seq<string>, c: string)
    ensures VisibleLines(chunks) == [] ==> VisibleLines(chunks + [c]) == Split(CString(c), '\n')
    ensures VisibleLines(chunks) != [] ==>
      VisibleLines(chunks + [c]) == Glue(VisibleLines(chunks), [FirstLine(CString(c))])
    decreases |chunks|
  {
    if |chunks| == 0 {
      assert chunks + [c] == [c];
      assert [c][1..] == [];
      if CString(c) != "" {
        GlueEmpty(Split(CString(c), '\n'));
      }
    } else {
      assert (chunks + [c])[0] == chunks[0];
      assert (chunks + [c])[1..] == chunks[1..] + [c];
      if CString(chunks[0]) == "" {
        VisibleLinesSnoc(chunks[1..], c);
      } else {
        FirstLinesSnoc(chunks[1..], c);
        GlueGlue(Split(CString(chunks[0]), '\n'), FirstLines(chunks[1..]), FirstLine(CString(c)));
      }
    }
  }

  /** The read loop as written collects exactly `VisibleLines`. */
  lemma {:induction false} CollectLinesAsWrittenIsVisible(chunks: seq<string>)
    requires chunks != []
    ensures CollectLinesAsWritten(chunks) == Some(VisibleLines(chunks))
    decreases |chunks|
  {
    var init := chunks[..|chunks| - 1];
    var c := chunks[|chunks| - 1];
    assert chunks == init + [c];
    VisibleLinesSnoc(init, c);
    if init != [] {
      CollectLinesAsWrittenIsVisible(init);
    }
  }

  /** As written, once a read has produced any text, later reads never add a line:
      the vector keeps the line count of the first read with text. */
  lemma LaterReadsAddNoLines(chunks: seq<string>, k: nat)
    requires k < |chunks| && CString(chunks[k]) != ""
    requires forall j :: 0 <= j < k ==> CString(chunks[j]) == ""
    ensures VisibleLines(chunks) == Glue(Split(CString(chunks[k]), '\n'), [FirstLines(chunks[k + 1..])])
    ensures CollectLinesAsWritten(chunks) == Some(VisibleLines(chunks))
    ensures |CollectLinesAsWritten(chunks).value| == |Split(CString(chunks[k]), '\n')|
  {
    CollectLinesAsWrittenIsVisible(chunks);
    VisibleFromFirstText(chunks, k);
  }

  /** Reads without text in front of read `k` leave no trace in `VisibleLines`. */
  lemma {:induction false} VisibleFromFirstText(chunks: seq<string>, k: nat)
    requires k < |chunks| && CString(chunks[k]) != ""
    requires forall j :: 0 <= j < k ==> CString(chunks[j]) == ""
    ensures VisibleLines(chunks) == VisibleLines(chunks[k..])
    decreases k
  {
    if k > 0 {
      var rest := chunks[1..];
      assert CString(chunks[0]) == "";
      assert VisibleLines(chunks) == VisibleLines(rest);
      forall j | 0 <= j < k - 1
        ensures CString(rest[j]) == ""
      {
        assert rest[j] == chunks[j + 1];
      }
      assert rest[k - 1] == chunks[k];
      assert rest[k - 1..] == chunks[k..];
      VisibleFromFirstText(rest, k - 1);
    }
  }

  /** The concrete case: `["a"]` fed `"b\nc"` gives the block `ab, NULL, c, NULL`,
      walked as `["ab"]`, where the corrected update gives `["ab", "c"]`. */
  lemma GlueBranchCounterexample()
    ensures GlueBranchAsWritten(["a"], "b\nc") == [Str("ab"), Null, Str("c"), Null]
    ensures Terminated(GlueBranchAsWritten(["a"], "b\nc")) == Some(["ab"])
    ensures UpdateLinesCorrected(Some(["a"]), "b\nc") == ["ab", "c"]
  {
    SplitBC();
    assert FirstLine("b\nc") == "b";
    assert "a" + "b" == "ab";
    assert Glue(["a"], ["b"]) == ["ab"];
    assert Glue(["a"], ["b", "c"]) == ["ab", "c"];
  }

  lemma SplitBC()
    ensures Split("b\nc", '\n') == ["b", "c"]
  {
    assert "b\nc"[1..] == "\nc";
    assert "\nc"[1..] == "c";
    SinglePiece("c", '\n');
    assert Pieces("\nc", '\n') == ["", "c"];
    assert ['b'] + "" == "b";
    assert Pieces("b\nc", '\n') == ["b", "c"];
  }

  /** As written, the chunking shows: `"a"` then `"b\nc"` collect `["ab"]`, while
      the same bytes in one read collect `["ab", "c"]`. */
  lemma ChunkingVisibleAsWritten()
    ensures CollectLinesAsWritten(["a", "b\nc"]) == Some(["ab"])
    ensures CollectLinesAsWritten(["ab\nc"]) == Some(["ab", "c"])
  {
    SplitBC();
    SinglePiece("a", '\n');
    assert "ab\nc"[1..] == "b\nc";
    assert ['a'] + "b" == "ab";
    assert Pieces("ab\nc", '\n') == ["ab", "c"];
    assert "a" + "b" == "ab";
    CollectLinesAsWrittenIsVisible(["a", "b\nc"]);
    CollectLinesAsWrittenIsVisible(["ab\nc"]);
    assert ["a", "b\nc"][1..] == ["b\nc"];
    assert FirstLines(["b\nc"]) == "b" by {
      assert ["b\nc"][1..] == [];
      assert FirstLine("b\nc") == "b";
    }
    assert FirstLines([]) == "";
    assert Glue(["a"], ["b"]) == ["ab"];
    GlueEmpty(["ab", "c"]);
  }
}
