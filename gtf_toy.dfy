/** The toy GTF: a GENCODE GTF cut down to the transcript rows of its first
    `num_genes` protein-coding genes (10 by default), for testing a GTF reader
    on a small file. Comment lines are copied; a transcript row is kept when
    it is protein-coding and its gene is among the genes met so far, or when
    the cap is not reached yet (the gene is then counted), and a transcript row
    of another type is kept when its gene was already counted. The first
    protein-coding transcript of one gene too many ends the copy. Rows of any
    other feature (genes, exons, ...) are never copied. */
module GtfToy {
  import opened Wrappers
  import opened Text
  import opened Collections

  // ---------------------------------------------------------------------------
  // The attribute dictionary
  // ---------------------------------------------------------------------------

  /** `key, value = attr.split()`, the value then stripped of double quotes;
      any other number of words than two raises ValueError. */
  function AttrPair(attr: string): Result<(string, string)>
  {
    var words := Words(attr);
    if |words| < 2 then Err(ValueError("not enough values to unpack (expected 2, got " + NatToString(|words|) + ")"))
    else if |words| > 2 then Err(ValueError("too many values to unpack (expected 2)"))
    else Ok((words[0], StripSet(words[1], {'"'})))
  }

  /** The pieces kept by `if attr`: the non-empty ones, in order. */
  function NonEmpty(pieces: seq<string>): (r: seq<string>)
    ensures forall x :: x in r <==> x in pieces && x != []
    ensures |r| <= |pieces|
  {
    if pieces == [] then []
    else
      var init := pieces[..|pieces| - 1];
      assert forall x :: x in pieces <==> x in init || x == pieces[|pieces| - 1];
      NonEmpty(init) + if pieces[|pieces| - 1] == [] then [] else [pieces[|pieces| - 1]]
  }

  /** The dictionary comprehension over the `; `-pieces of an attribute column:
      a later key overwrites an earlier one. */
  function Attributes(column: string): Result<map<string, string>>
  {
    DictFrom(NonEmpty(Split(column, "; ")), AttrPair)
  }

  /** `attributes.get('gene_id')`. */
  function GeneId(attrs: map<string, string>): (r: Option<string>)
    ensures r.Some? <==> "gene_id" in attrs
    ensures r.Some? ==> r.value == attrs["gene_id"]
  {
    if "gene_id" in attrs then Some(attrs["gene_id"]) else None
  }

  /** `'gene_type' in attributes and attributes['gene_type'] == 'protein_coding'`. */
  predicate IsProteinCoding(attrs: map<string, string>)
  {
    "gene_type" in attrs && attrs["gene_type"] == "protein_coding"
  }

  // ---------------------------------------------------------------------------
  // The copy loop
  // ---------------------------------------------------------------------------

  /** Whether the loop goes on, left by `break`, or was stopped by an exception. */
  datatype Stop = Running | Broke | Raised(error: PyError)

  /** The loop's state: `gene_count`, `gene_ids` (which may hold None, for a
      protein-coding transcript without a gene_id), the lines written so far
      and whether the loop has stopped. */
  datatype Toy = Toy(geneCount: nat, geneIds: set<Option<string>>, written: seq<string>, stop: Stop)

  /** One pass of the loop on a running state: a comment is copied, the other
      lines are cut into tab fields. */
  function LineStep(t: Toy, line: string, numGenes: int): Toy
  {
    if StartsWith(line, "#") then t.(written := t.written + [line])
    else FieldsStep(t, line, Split(Strip(line), "\t"), numGenes)
  }

  /** Fewer than three tab fields raise IndexError; a row that is not a
      transcript is passed over; a transcript row with fewer than nine fields
      raises IndexError, and one whose attributes do not unpack raises
      ValueError. */
  function FieldsStep(t: Toy, line: string, fields: seq<string>, numGenes: int): Toy
  {
    if |fields| < 3 then t.(stop := Raised(IndexError("list index out of range")))
    else if fields[2] != "transcript" then t
    else if |fields| < 9 then t.(stop := Raised(IndexError("list index out of range")))
    else
      match Attributes(fields[8])
      case Err(e) => t.(stop := Raised(e))
      case Ok(attrs) => TranscriptStep(t, line, attrs, numGenes)
  }

  /** A transcript row with its attributes. */
  function TranscriptStep(t: Toy, line: string, attrs: map<string, string>, numGenes: int): Toy
  {
    if IsProteinCoding(attrs) then
      var geneId := GeneId(attrs);
      if geneId !in t.geneIds then
        var count := t.geneCount + 1;
        if count > numGenes then t.(geneCount := count, geneIds := t.geneIds + {geneId}, stop := Broke)
        else t.(geneCount := count, geneIds := t.geneIds + {geneId}, written := t.written + [line])
      else t.(written := t.written + [line])
    else if GeneId(attrs) in t.geneIds then t.(written := t.written + [line])
    else t
  }

  /** The loop over `lines`: nothing changes once it has stopped. */
  function Run(lines: seq<string>, numGenes: int): Toy
  {
    if lines == [] then Toy(0, {}, [], Running)
    else
      var t := Run(lines[..|lines| - 1], numGenes);
      if t.stop.Running? then LineStep(t, lines[|lines| - 1], numGenes) else t
  }

  /** Once the loop has stopped, the later lines change nothing. */
  lemma {:induction false} StopStays(lines: seq<string>, numGenes: int, i: nat)
    requires i <= |lines| && !Run(lines[..i], numGenes).stop.Running?
    ensures Run(lines, numGenes) == Run(lines[..i], numGenes)
  {
    if i < |lines| {
      var init := lines[..|lines| - 1];
      assert init[..i] == lines[..i];
      StopStays(init, numGenes, i);
    } else {
      assert lines[..i] == lines;
    }
  }

  /** The body of the copy loop for one line: the new `gene_count`,
      `gene_ids` and output, and whether the loop stops here. */
  method CopyLine(geneCount: nat, geneIds: set<Option<string>>, written: seq<string>, line: string, numGenes: int)
    returns (count: nat, ids: set<Option<string>>, out: seq<string>, stop: Stop)
    ensures Toy(count, ids, out, stop) == LineStep(Toy(geneCount, geneIds, written, Running), line, numGenes)
  {
    ghost var t := Toy(geneCount, geneIds, written, Running);
    count, ids, out, stop := geneCount, geneIds, written, Running;
    if StartsWith(line, "#") {
      out := out + [line];
      return;
    }
    var fields := Split(Strip(line), "\t");
    assert LineStep(t, line, numGenes) == FieldsStep(t, line, fields, numGenes);
    if |fields| < 3 {
      return count, ids, out, Raised(IndexError("list index out of range"));
    }
    if fields[2] == "transcript" {
      if |fields| < 9 {
        return count, ids, out, Raised(IndexError("list index out of range"));
      }
      var attributes := FillDict(NonEmpty(Split(fields[8], "; ")), AttrPair);
      if attributes.Err? {
        return count, ids, out, Raised(attributes.error);
      }
      assert FieldsStep(t, line, fields, numGenes) == TranscriptStep(t, line, attributes.value, numGenes);
      count, ids, out, stop := CopyTranscript(geneCount, geneIds, written, line, attributes.value, numGenes);
    }
  }

  /** The body of the copy loop for a transcript row, once its attributes are read. */
  method CopyTranscript(geneCount: nat, geneIds: set<Option<string>>, written: seq<string>, line: string,
                        attrs: map<string, string>, numGenes: int)
    returns (count: nat, ids: set<Option<string>>, out: seq<string>, stop: Stop)
    ensures Toy(count, ids, out, stop) == TranscriptStep(Toy(geneCount, geneIds, written, Running), line, attrs, numGenes)
  {
    count, ids, out, stop := geneCount, geneIds, written, Running;
    if "gene_type" in attrs && attrs["gene_type"] == "protein_coding" {
      var geneId := if "gene_id" in attrs then Some(attrs["gene_id"]) else None;
      if geneId !in ids {
        ids := ids + {geneId};
        count := count + 1;
        if count > numGenes {
          return count, ids, out, Broke;
        }
      }
      out := out + [line];
    } else {
      var geneId := if "gene_id" in attrs then Some(attrs["gene_id"]) else None;
      if geneId in ids {
        out := out + [line];
      }
    }
  }

  /** `create_small_gtf`: the lines written to the output file, and the
      exception that ended the copy, if any (the lines written before it stay
      in the file). */
  method CreateSmallGtf(lines: seq<string>, numGenes: int) returns (written: seq<string>, error: Option<PyError>)
    ensures written == Run(lines, numGenes).written
    ensures error == if Run(lines, numGenes).stop.Raised? then Some(Run(lines, numGenes).stop.error) else None
  {
    var geneCount: nat := 0;
    var geneIds: set<Option<string>> := {};
    written := [];
    for i := 0 to |lines|
      invariant Run(lines[..i], numGenes) == Toy(geneCount, geneIds, written, Running)
    {
      assert lines[..i + 1][..i] == lines[..i];
      var stop;
      geneCount, geneIds, written, stop := CopyLine(geneCount, geneIds, written, lines[i], numGenes);
      if !stop.Running? {
        StopStays(lines, numGenes, i + 1);
        return written, if stop.Raised? then Some(stop.error) else None;
      }
    }
    assert lines[..|lines|] == lines;
    return written, None;
  }

  // ---------------------------------------------------------------------------
  // What is written
  // ---------------------------------------------------------------------------

  /** The attributes of a line the loop reads as a transcript row with nine
      tab fields and well-formed attributes; None for any other line. */
  function RowAttributes(line: string): Option<map<string, string>>
  {
    var fields := Split(Strip(line), "\t");
    if StartsWith(line, "#") || |fields| < 9 || fields[2] != "transcript" then None
    else
      match Attributes(fields[8])
      case Err(_) => None
      case Ok(attrs) => Some(attrs)
  }

  /** The line's gene (possibly None) when it is such a transcript row. */
  function RowGene(line: string): Option<Option<string>>
  {
    match RowAttributes(line)
    case None => None
    case Some(attrs) => Some(GeneId(attrs))
  }

  /** The lines the loop copies from a running state: comments; transcript
      rows of a gene already counted; and protein-coding transcript rows of a
      new gene while fewer than `numGenes` genes are counted. */
  predicate Writes(t: Toy, line: string, numGenes: int)
  {
    StartsWith(line, "#") ||
    (RowGene(line).Some? &&
     (RowGene(line).value in t.geneIds || (IsProteinCoding(RowAttributes(line).value) && t.geneCount < numGenes)))
  }

  /** A transcript row's pass writes exactly the lines `Writes` describes. */
  lemma TranscriptStepWrites(t: Toy, line: string, attrs: map<string, string>, numGenes: int)
    requires t.stop.Running?
    ensures var w := TranscriptStep(t, line, attrs, numGenes).written;
            (w == t.written + [line] <==>
               GeneId(attrs) in t.geneIds || (IsProteinCoding(attrs) && t.geneCount < numGenes)) &&
            (w == t.written || w == t.written + [line])
  {
  }

  /** A pass writes its line exactly when `Writes` says so, and writes nothing else. */
  lemma LineStepWrites(t: Toy, line: string, numGenes: int)
    requires t.stop.Running?
    ensures var w := LineStep(t, line, numGenes).written;
            (w == t.written + [line] <==> Writes(t, line, numGenes)) &&
            (w == t.written || w == t.written + [line])
  {
    if !StartsWith(line, "#") {
      var fields := Split(Strip(line), "\t");
      assert LineStep(t, line, numGenes) == FieldsStep(t, line, fields, numGenes);
      if |fields| >= 9 && fields[2] == "transcript" && Attributes(fields[8]).Ok? {
        var attrs := Attributes(fields[8]).value;
        assert RowAttributes(line) == Some(attrs);
        TranscriptStepWrites(t, line, attrs, numGenes);
      }
    }
  }

  /** A pass copies a comment verbatim, handles a transcript row whose
      attributes unpack, passes over a row of another feature, and raises on
      any other line (too few fields, or attributes that do not unpack). */
  lemma LineStepCases(t: Toy, line: string, numGenes: int)
    ensures var u := LineStep(t, line, numGenes);
            var fields := Split(Strip(line), "\t");
            && (StartsWith(line, "#") ==> u == t.(written := t.written + [line]))
            && (RowAttributes(line).Some? ==> u == TranscriptStep(t, line, RowAttributes(line).value, numGenes))
            && (!StartsWith(line, "#") && |fields| >= 3 && fields[2] != "transcript" ==> u == t)
            && (!StartsWith(line, "#") && RowAttributes(line).None? && !(|fields| >= 3 && fields[2] != "transcript") ==>
                  u.stop.Raised? && u == t.(stop := u.stop))
  {
    if !StartsWith(line, "#") {
      var fields := Split(Strip(line), "\t");
      assert LineStep(t, line, numGenes) == FieldsStep(t, line, fields, numGenes);
    }
  }

  /** `max(n, 0)`: with a negative cap no gene is kept. */
  function Cap(numGenes: int): nat
  {
    if numGenes < 0 then 0 else numGenes
  }

  /** The counter counts the distinct genes met; it stays within the cap
      while the loop runs, and passes it by exactly one when the loop breaks. */
  predicate Counted(t: Toy, numGenes: int)
  {
    t.geneCount == |t.geneIds| &&
    (t.stop == Broke ==> t.geneCount == Cap(numGenes) + 1) &&
    (t.stop != Broke ==> t.geneCount <= Cap(numGenes))
  }

  /** A transcript row keeps the count right. */
  lemma TranscriptStepCounted(t: Toy, line: string, attrs: map<string, string>, numGenes: int)
    requires t.stop.Running? && Counted(t, numGenes)
    ensures Counted(TranscriptStep(t, line, attrs, numGenes), numGenes)
  {
  }

  /** One pass keeps the count right. */
  lemma LineStepCounted(t: Toy, line: string, numGenes: int)
    requires t.stop.Running? && Counted(t, numGenes)
    ensures Counted(LineStep(t, line, numGenes), numGenes)
  {
    LineStepCases(t, line, numGenes);
    if RowAttributes(line).Some? {
      TranscriptStepCounted(t, line, RowAttributes(line).value, numGenes);
    }
  }

  /** The count of distinct protein-coding genes never passes the cap by more than one. */
  lemma {:induction false} RunCounted(lines: seq<string>, numGenes: int)
    ensures Counted(Run(lines, numGenes), numGenes)
  {
    if lines != [] {
      var init := lines[..|lines| - 1];
      RunCounted(init, numGenes);
      if Run(init, numGenes).stop.Running? {
        LineStepCounted(Run(init, numGenes), lines[|lines| - 1], numGenes);
      }
    }
  }

  /** Every written line other than a comment is a transcript row of a gene in `genes`. */
  predicate GenesWithin(written: seq<string>, genes: set<Option<string>>)
  {
    forall k :: 0 <= k < |written| && !StartsWith(written[k], "#") ==>
      RowGene(written[k]).Some? && RowGene(written[k]).value in genes
  }

  /** More genes, and one more line that is a comment or a row of one of them. */
  lemma GenesWithinSnoc(written: seq<string>, genes: set<Option<string>>, more: set<Option<string>>, line: string)
    requires GenesWithin(written, genes) && genes <= more
    requires !StartsWith(line, "#") ==> RowGene(line).Some? && RowGene(line).value in more
    ensures GenesWithin(written, more) && GenesWithin(written + [line], more)
  {
    var w := written + [line];
    forall k | 0 <= k < |w| && !StartsWith(w[k], "#")
      ensures RowGene(w[k]).Some? && RowGene(w[k]).value in more
    {
      if k < |written| {
        assert w[k] == written[k];
      }
    }
  }

  /** A transcript row's pass only adds genes, writes its line only once its
      gene is counted, and writes nothing when it breaks. */
  lemma TranscriptStepGenes(t: Toy, line: string, attrs: map<string, string>, numGenes: int)
    requires t.stop.Running?
    ensures var u := TranscriptStep(t, line, attrs, numGenes);
            t.geneIds <= u.geneIds &&
            (u.written == t.written || (u.written == t.written + [line] && GeneId(attrs) in u.geneIds)) &&
            (u.stop == Broke ==> u.written == t.written)
  {
  }

  /** A pass that writes a transcript row has counted its gene. */
  lemma LineStepGenes(t: Toy, line: string, numGenes: int)
    requires t.stop.Running? && GenesWithin(t.written, t.geneIds)
    ensures var u := LineStep(t, line, numGenes);
            GenesWithin(u.written, u.geneIds) && t.geneIds <= u.geneIds &&
            (u.stop == Broke ==> u.written == t.written)
  {
    var u := LineStep(t, line, numGenes);
    LineStepCases(t, line, numGenes);
    if StartsWith(line, "#") || u == t || (u.stop.Raised? && u == t.(stop := u.stop)) {
      if u.written != t.written {
        GenesWithinSnoc(t.written, t.geneIds, u.geneIds, line);
      }
    } else {
      var attrs := RowAttributes(line).value;
      assert RowGene(line) == Some(GeneId(attrs));
      TranscriptStepGenes(t, line, attrs, numGenes);
      GenesWithinSnoc(t.written, t.geneIds, u.geneIds, line);
    }
  }

  /** Every non-comment line written is a transcript row, and all of them
      belong to at most `max(num_genes, 0)` genes, all among the genes counted. */
  lemma {:induction false} RunGenes(lines: seq<string>, numGenes: int)
    ensures var t := Run(lines, numGenes);
            GenesWithin(t.written, t.geneIds) &&
            exists kept :: kept <= t.geneIds && |kept| <= Cap(numGenes) && GenesWithin(t.written, kept)
  {
    RunCounted(lines, numGenes);
    var t := Run(lines, numGenes);
    if lines == [] {
      assert GenesWithin(t.written, {});
    } else {
      var init := lines[..|lines| - 1];
      var s := Run(init, numGenes);
      RunGenes(init, numGenes);
      RunCounted(init, numGenes);
      if s.stop.Running? {
        LineStepGenes(s, lines[|lines| - 1], numGenes);
        if t.stop == Broke {
          assert GenesWithin(t.written, s.geneIds);
        } else {
          assert GenesWithin(t.written, t.geneIds);
        }
      }
    }
  }

  // ---------------------------------------------------------------------------
  // The output is a selection of the input
  // ---------------------------------------------------------------------------

  /** `a` is `b` with some lines left out, the others in their order. */
  predicate Subsequence(a: seq<string>, b: seq<string>)
    decreases |b|
  {
    if a == [] then true
    else if b == [] then false
    else if a[|a| - 1] == b[|b| - 1] then Subsequence(a[..|a| - 1], b[..|b| - 1])
    else Subsequence(a, b[..|b| - 1])
  }

  /** Leaving out the last line of a selection leaves a selection. */
  lemma {:induction false} SubsequenceDropLast(a: seq<string>, b: seq<string>)
    requires a != [] && Subsequence(a, b)
    ensures Subsequence(a[..|a| - 1], b)
    decreases |b|, 0
  {
    var a1 := a[..|a| - 1];
    if a[|a| - 1] == b[|b| - 1] {
      if a1 != [] {
        SubsequenceExtend(a1, b[..|b| - 1], b[|b| - 1]);
        assert b[..|b| - 1] + [b[|b| - 1]] == b;
      }
    } else {
      SubsequenceDropLast(a, b[..|b| - 1]);
      if a1 != [] {
        SubsequenceExtend(a1, b[..|b| - 1], b[|b| - 1]);
        assert b[..|b| - 1] + [b[|b| - 1]] == b;
      }
    }
  }

  /** A selection of `b` is a selection of `b` with one more line. */
  lemma {:induction false} SubsequenceExtend(a: seq<string>, b: seq<string>, x: string)
    requires Subsequence(a, b)
    ensures Subsequence(a, b + [x])
    decreases |b|, 1
  {
    assert (b + [x])[..|b|] == b;
    if a != [] && a[|a| - 1] == x {
      SubsequenceDropLast(a, b);
    }
  }

  /** A pass of the loop adds its own line to the output, or nothing. */
  lemma RunWritesLast(lines: seq<string>, numGenes: int)
    requires lines != []
    ensures var w := Run(lines[..|lines| - 1], numGenes).written;
            Run(lines, numGenes).written == w || Run(lines, numGenes).written == w + [lines[|lines| - 1]]
  {
    var s := Run(lines[..|lines| - 1], numGenes);
    if s.stop.Running? {
      LineStepWrites(s, lines[|lines| - 1], numGenes);
    }
  }

  /** The output file holds input lines only, in their input order. */
  lemma {:induction false} RunSubsequence(lines: seq<string>, numGenes: int)
    ensures Subsequence(Run(lines, numGenes).written, lines)
  {
    if lines != [] {
      var init := lines[..|lines| - 1];
      var x := lines[|lines| - 1];
      var w := Run(init, numGenes).written;
      RunSubsequence(init, numGenes);
      assert init + [x] == lines;
      SubsequenceExtend(w, init, x);
      RunWritesLast(lines, numGenes);
      if Run(lines, numGenes).written == w + [x] {
        assert (w + [x])[..|w|] == w;
      }
    }
  }
}
