/** The reference tables built from a GENCODE annotation: the maps read from the
    `transcript` lines of the GTF (ENSG -> gene name, ENST -> transcript name,
    gene -> ENSPs, gene -> transcript names), the isoform length table read
    from the FASTA headers, and the per-gene minimum and maximum isoform length. */
module ReferenceTables {
  import opened Wrappers
  import opened Text
  import opened Collections

  // ---------------------------------------------------------------------------
  // Attribute extraction
  // ---------------------------------------------------------------------------

  const GeneIdKey: string := "gene_id \""
  const GeneNameKey: string := "gene_name \""
  const TranscriptIdKey: string := "transcript_id \""
  const TranscriptNameKey: string := "transcript_name \""
  const ProteinIdKey: string := "protein_id \""
  const ProteinCodingMark: string := "transcript_type \"protein_coding"

  /** `line.split(pattern)[1].split('"')[0]`; None where indexing the first split raises IndexError. */
  function AttrValue(line: string, pattern: string): Option<string>
    requires pattern != []
  {
    var pieces := Split(line, pattern);
    if |pieces| < 2 then None else Some(Split(pieces[1], "\"")[0])
  }

  /** The value is found exactly when the line contains the pattern. */
  lemma AttrValueFound(line: string, pattern: string)
    requires pattern != []
    ensures AttrValue(line, pattern).Some? <==> Contains(line, pattern)
  {
    match Find(line, pattern)
    case None =>
    case Some(k) => SplitAfterFirst(line, pattern, k);
  }

  /** The value is the text after the pattern's first occurrence, up to the
      next `"`, the next occurrence of the pattern, or the end of the line. */
  lemma AttrValueText(line: string, pattern: string, k: nat)
    requires pattern != [] && Find(line, pattern) == Some(k)
    ensures k + |pattern| <= |line| && AttrValue(line, pattern).Some?
    ensures var rest := line[k + |pattern|..];
            var v := AttrValue(line, pattern).value;
            && |v| <= |rest| && v == rest[..|v|]
            && '"' !in v
            && (|v| == |rest| || rest[|v|] == '"' || OccursAt(rest, pattern, |v|))
  {
    SplitAfterFirst(line, pattern, k);
    var rest := line[k + |pattern|..];
    var q := Split(rest, pattern)[0];
    assert Split(line, pattern)[1] == q;
    SplitFirst(rest, pattern);
    SplitFirstChar(q, '"');
  }

  /** A key that ends in a space and a quote, like `gene_id "`, and has no
      other space or quote. */
  predicate QuotedKey(pattern: string)
  {
    |pattern| >= 2 && pattern[|pattern| - 2..] == " \"" &&
    ' ' !in pattern[..|pattern| - 2] && '"' !in pattern[..|pattern| - 2]
  }

  /** The gene and transcript keys are such keys. */
  lemma IdKeysQuoted()
    ensures QuotedKey(GeneIdKey) && QuotedKey(TranscriptIdKey)
  {
  }

  /** Two strings that differ at some position are different. */
  lemma DiffersAt(w: string, p: string, i: nat)
    requires i < |w| && i < |p| && w[i] != p[i]
    ensures w != p
  {
  }

  /** Such a key does not occur in `x + "\"" + y` before the quote when `x`
      holds no space and no quote. */
  lemma QuotedKeyNotBefore(x: string, y: string, pattern: string, j: nat)
    requires QuotedKey(pattern) && j <= |x|
    requires '"' !in x && ' ' !in x
    ensures !OccursAt(x + "\"" + y, pattern, j)
  {
    var rest := x + "\"" + y;
    var m := |pattern|;
    var head := pattern[..m - 2];
    assert pattern[m - 1] == '"' && pattern[m - 2] == ' ';
    if j + m <= |rest| {
      var window := rest[j..j + m];
      if j + m - 1 < |x| {
        var c := x[j + m - 1];
        assert c in x;
        assert window[m - 1] == c;
        DiffersAt(window, pattern, m - 1);
      } else if j + m - 1 == |x| {
        var c := x[|x| - 1];
        assert c in x;
        assert window[m - 2] == c;
        DiffersAt(window, pattern, m - 2);
      } else {
        var i := |x| - j;
        assert window[i] == '"';
        if i < m - 2 {
          assert pattern[i] == head[i];
          assert head[i] in head;
        }
        DiffersAt(window, pattern, i);
      }
    }
  }

  /** After a key that ends in a space and a quote, a value holding no space
      and no quote is read back exactly. */
  lemma AttrValueOf(line: string, pattern: string, k: nat, x: string, y: string)
    requires QuotedKey(pattern) && Find(line, pattern) == Some(k)
    requires k + |pattern| <= |line| && line[k + |pattern|..] == x + "\"" + y
    requires '"' !in x && ' ' !in x
    ensures AttrValue(line, pattern) == Some(x)
  {
    SplitAfterFirst(line, pattern, k);
    var rest := x + "\"" + y;
    var q := Split(rest, pattern)[0];
    assert Split(line, pattern)[1] == q;
    SplitFirst(rest, pattern);
    if |q| < |rest| && |q| <= |x| {
      QuotedKeyNotBefore(x, y, pattern, |q|);
    }
    assert |q| > |x|;
    var z := q[|x| + 1..];
    assert q[..|x| + 1] == rest[..|x| + 1] == x + "\"";
    assert q == q[..|x| + 1] + z;
    SplitCons(x, z, '"');
  }

  // ---------------------------------------------------------------------------
  // GenMap
  // ---------------------------------------------------------------------------

  /** The four dictionaries `GenMap` fills. */
  datatype GenMaps = GenMaps(
    genes: map<string, string>,
    isos: map<string, string>,
    ensps: map<string, set<string>>,
    isonames: map<string, set<string>>)

  /** `d[k].add(v)` on a `defaultdict(set)`. */
  function AddTo(d: map<string, set<string>>, k: string, v: string): (r: map<string, set<string>>)
    ensures r.Keys == d.Keys + {k}
    ensures r[k] == (if k in d then d[k] else {}) + {v}
    ensures forall j :: j in d && j != k ==> r[j] == d[j]
  {
    d[k := (if k in d then d[k] else {}) + {v}]
  }

  /** The four attributes a transcript line must carry. */
  predicate Complete(line: string)
  {
    && AttrValue(line, GeneIdKey).Some? && AttrValue(line, GeneNameKey).Some?
    && AttrValue(line, TranscriptIdKey).Some? && AttrValue(line, TranscriptNameKey).Some?
  }

  /** A line that is not a comment and has a third tab-separated field. */
  predicate HasFeature(line: string)
  {
    !StartsWith(line, "#") && |Split(line, "\t")| >= 3
  }

  predicate IsTranscriptLine(line: string)
  {
    HasFeature(line) && Split(line, "\t")[2] == "transcript"
  }

  /** One pass of the loop body of `GenMap`. A non-comment line with fewer than
      three tab-separated fields raises IndexError, which nothing catches. */
  function GenMapLine(m: GenMaps, line: string): Result<GenMaps>
  {
    if StartsWith(line, "#") then Ok(m)
    else if |Split(line, "\t")| < 3 then Err(IndexError("list index out of range"))
    else if Split(line, "\t")[2] != "transcript" then Ok(m)
    else if !Complete(line) then Ok(m)
    else
      var ensg := AttrValue(line, GeneIdKey).value;
      var gene := AttrValue(line, GeneNameKey).value;
      var enst := AttrValue(line, TranscriptIdKey).value;
      var transcriptName := AttrValue(line, TranscriptNameKey).value;
      var m1 := GenMaps(m.genes[ensg := gene], m.isos[enst := transcriptName], m.ensps,
                        AddTo(m.isonames, gene, transcriptName));
      if Contains(line, ProteinCodingMark) && AttrValue(line, ProteinIdKey).Some? then
        Ok(m1.(ensps := AddTo(m1.ensps, gene, AttrValue(line, ProteinIdKey).value)))
      else Ok(m1)
  }

  const EmptyMaps: GenMaps := GenMaps(map[], map[], map[], map[])

  /** The dictionaries after reading `lines`, or the error that stopped the reading. */
  function GenMapAll(lines: seq<string>): Result<GenMaps>
  {
    if lines == [] then Ok(EmptyMaps)
    else
      match GenMapAll(lines[..|lines| - 1])
      case Err(e) => Err(e)
      case Ok(m) => GenMapLine(m, lines[|lines| - 1])
  }

  /** `GenMap`'s loop over the GTF lines. */
  method GenMap(lines: seq<string>) returns (r: Result<GenMaps>)
    ensures r == GenMapAll(lines)
  {
    var genes: map<string, string> := map[];
    var isos: map<string, string> := map[];
    var ensps: map<string, set<string>> := map[];
    var isonames: map<string, set<string>> := map[];
    for i := 0 to |lines|
      invariant GenMapAll(lines[..i]) == Ok(GenMaps(genes, isos, ensps, isonames))
    {
      assert lines[..i + 1][..i] == lines[..i];
      var line := lines[i];
      if StartsWith(line, "#") {
        continue;
      }
      var wds := Split(line, "\t");
      if |wds| < 3 {
        GenMapErrorStays(lines, i + 1);
        return Err(IndexError("list index out of range"));
      }
      if wds[2] == "transcript" {
        var ensg := AttrValue(line, GeneIdKey);
        var gene := AttrValue(line, GeneNameKey);
        var enst := AttrValue(line, TranscriptIdKey);
        var transcriptName := AttrValue(line, TranscriptNameKey);
        if ensg.Some? && gene.Some? && enst.Some? && transcriptName.Some? {
          genes := genes[ensg.value := gene.value];
          isos := isos[enst.value := transcriptName.value];
          isonames := AddTo(isonames, gene.value, transcriptName.value);
          if Contains(line, ProteinCodingMark) {
            var ensp := AttrValue(line, ProteinIdKey);
            if ensp.Some? {
              ensps := AddTo(ensps, gene.value, ensp.value);
            }
          }
        }
      }
    }
    assert lines[..|lines|] == lines;
    return Ok(GenMaps(genes, isos, ensps, isonames));
  }

  /** Once the reading has failed, the later lines change nothing. */
  lemma {:induction false} GenMapErrorStays(lines: seq<string>, i: nat)
    requires i <= |lines| && GenMapAll(lines[..i]).Err?
    ensures GenMapAll(lines) == GenMapAll(lines[..i])
  {
    if i < |lines| {
      var init := lines[..|lines| - 1];
      assert init[..i] == lines[..i];
      GenMapErrorStays(init, i);
    } else {
      assert lines[..i] == lines;
    }
  }

  /** A complete transcript line records its gene under its ENSG, its transcript
      name under its ENST and in its gene's name set, and its protein id in its
      gene's ENSP set when it is protein coding and has one. */
  lemma GenMapLineComplete(m: GenMaps, line: string)
    requires IsTranscriptLine(line) && Complete(line)
    ensures GenMapLine(m, line).Ok?
    ensures var gene := AttrValue(line, GeneNameKey).value;
            var transcriptName := AttrValue(line, TranscriptNameKey).value;
            var m2 := GenMapLine(m, line).value;
            && m2.genes == m.genes[AttrValue(line, GeneIdKey).value := gene]
            && m2.isos == m.isos[AttrValue(line, TranscriptIdKey).value := transcriptName]
            && m2.isonames == AddTo(m.isonames, gene, transcriptName)
            && (Contains(line, ProteinCodingMark) && AttrValue(line, ProteinIdKey).Some? ==>
                  m2.ensps == AddTo(m.ensps, gene, AttrValue(line, ProteinIdKey).value))
            && (!Contains(line, ProteinCodingMark) || AttrValue(line, ProteinIdKey).None? ==> m2.ensps == m.ensps)
  {
  }

  /** A protein-coding transcript line without a protein id still updates the
      gene, transcript and transcript-name maps, but not the ENSP sets. */
  lemma GenMapLineNoProteinId(m: GenMaps, line: string)
    requires IsTranscriptLine(line) && Complete(line)
    requires Contains(line, ProteinCodingMark) && !Contains(line, ProteinIdKey)
    ensures GenMapLine(m, line).Ok?
    ensures GenMapLine(m, line).value.ensps == m.ensps
    ensures AttrValue(line, GeneIdKey).value in GenMapLine(m, line).value.genes
  {
    AttrValueFound(line, ProteinIdKey);
  }

  /** A transcript line that lacks one of the four attributes changes nothing. */
  lemma GenMapLineIncomplete(m: GenMaps, line: string)
    requires IsTranscriptLine(line)
    requires !Contains(line, GeneIdKey) || !Contains(line, GeneNameKey)
          || !Contains(line, TranscriptIdKey) || !Contains(line, TranscriptNameKey)
    ensures GenMapLine(m, line) == Ok(m)
  {
    AttrValueFound(line, GeneIdKey);
    AttrValueFound(line, GeneNameKey);
    AttrValueFound(line, TranscriptIdKey);
    AttrValueFound(line, TranscriptNameKey);
  }

  /** The lines that can matter: those that are not comments and either lack a
      third field (and so raise) or are transcript lines. */
  predicate Relevant(line: string)
  {
    !StartsWith(line, "#") && (|Split(line, "\t")| < 3 || Split(line, "\t")[2] == "transcript")
  }

  function RelevantLines(lines: seq<string>): seq<string>
  {
    if lines == [] then []
    else
      var last := lines[|lines| - 1];
      RelevantLines(lines[..|lines| - 1]) + (if Relevant(last) then [last] else [])
  }

  /** Comment lines and lines of other features have no effect at all. */
  lemma {:induction false} GenMapIgnoresOtherLines(lines: seq<string>)
    ensures GenMapAll(lines) == GenMapAll(RelevantLines(lines))
  {
    if lines != [] {
      var init := lines[..|lines| - 1];
      var last := lines[|lines| - 1];
      GenMapIgnoresOtherLines(init);
      var kept := RelevantLines(lines);
      if Relevant(last) {
        assert kept == RelevantLines(init) + [last];
        assert kept[..|kept| - 1] == RelevantLines(init);
      } else {
        assert kept == RelevantLines(init);
      }
    }
  }

  /** The reading fails exactly when some non-comment line has fewer than three fields. */
  lemma {:induction false} GenMapFails(lines: seq<string>)
    ensures GenMapAll(lines).Err? <==>
              exists i :: 0 <= i < |lines| && !StartsWith(lines[i], "#") && |Split(lines[i], "\t")| < 3
  {
    if lines != [] {
      var n := |lines| - 1;
      var init := lines[..n];
      GenMapFails(init);
      if GenMapAll(init).Err? {
        var i :| 0 <= i < |init| && !StartsWith(init[i], "#") && |Split(init[i], "\t")| < 3;
        assert lines[i] == init[i];
      } else if GenMapAll(lines).Err? {
        assert !StartsWith(lines[n], "#") && |Split(lines[n], "\t")| < 3;
      } else {
        forall i | 0 <= i < |lines| && !StartsWith(lines[i], "#")
          ensures |Split(lines[i], "\t")| >= 3
        {
          if i < n {
            assert lines[i] == init[i];
          }
        }
      }
    }
  }

  /** Every gene recorded under an ENSG, and every gene with ENSPs, has a transcript-name set. */
  ghost predicate Consistent(m: GenMaps)
  {
    && (forall e :: e in m.genes ==> m.genes[e] in m.isonames)
    && (forall g :: g in m.ensps ==> g in m.isonames)
  }

  lemma {:induction false} GenMapConsistent(lines: seq<string>)
    requires GenMapAll(lines).Ok?
    ensures Consistent(GenMapAll(lines).value)
  {
    if lines != [] {
      var init := lines[..|lines| - 1];
      GenMapConsistent(init);
      var m := GenMapAll(init).value;
      var line := lines[|lines| - 1];
      if IsTranscriptLine(line) && Complete(line) {
        GenMapLineComplete(m, line);
      }
    }
  }

  /** The gene recorded for an ENSG is the one of the last complete transcript
      line that names that ENSG: a later line overwrites an earlier one. */
  lemma {:induction false} GenMapGeneLastWins(lines: seq<string>, i: nat)
    requires GenMapAll(lines).Ok?
    requires i < |lines| && IsTranscriptLine(lines[i]) && Complete(lines[i])
    requires forall j :: i < j < |lines| && IsTranscriptLine(lines[j]) && Complete(lines[j]) ==>
               AttrValue(lines[j], GeneIdKey) != AttrValue(lines[i], GeneIdKey)
    ensures AttrValue(lines[i], GeneIdKey).value in GenMapAll(lines).value.genes
    ensures GenMapAll(lines).value.genes[AttrValue(lines[i], GeneIdKey).value] == AttrValue(lines[i], GeneNameKey).value
  {
    var init := lines[..|lines| - 1];
    var last := lines[|lines| - 1];
    var m := GenMapAll(init).value;
    if i == |lines| - 1 {
      GenMapLineComplete(m, last);
    } else {
      assert init[i] == lines[i];
      forall j | i < j < |init| && IsTranscriptLine(init[j]) && Complete(init[j])
        ensures AttrValue(init[j], GeneIdKey) != AttrValue(init[i], GeneIdKey)
      {
        assert init[j] == lines[j];
      }
      GenMapGeneLastWins(init, i);
      if IsTranscriptLine(last) && Complete(last) {
        GenMapLineComplete(m, last);
      }
    }
  }

  // ---------------------------------------------------------------------------
  // IsoLenTab
  // ---------------------------------------------------------------------------

  /** The three header fields read for one isoform, before the length is converted. */
  datatype RawIsoLen = RawIsoLen(isoform: string, gene: string, length: string)

  /** One row of the isoform length table. */
  datatype IsoLen = IsoLen(isoform: string, gene: string, length: int)

  const DoubleQuote: string := "\"\""

  /** `field.split('""')[0]`. */
  function BeforeDoubleQuote(field: string): string
  {
    Split(field, DoubleQuote)[0]
  }

  /** Fields 4, 5 and 6 of a header; IndexError when it has fewer than seven `|`-fields. */
  function HeaderFields(line: string): Result<RawIsoLen>
  {
    var fields := Split(line, "|");
    if |fields| < 7 then Err(IndexError("list index out of range"))
    else Ok(RawIsoLen(BeforeDoubleQuote(fields[4]), BeforeDoubleQuote(fields[5]), BeforeDoubleQuote(fields[6])))
  }

  /** The three lists after reading `lines`: one entry per header line, in file order. */
  function RawIsoLens(lines: seq<string>): Result<seq<RawIsoLen>>
  {
    if lines == [] then Ok([])
    else
      match RawIsoLens(lines[..|lines| - 1])
      case Err(e) => Err(e)
      case Ok(raws) =>
        var line := lines[|lines| - 1];
        if !StartsWith(line, ">") then Ok(raws)
        else match HeaderFields(line)
          case Err(e) => Err(e)
          case Ok(raw) => Ok(raws + [raw])
  }

  /** `[int(x_len) for x_len in lens]` over the collected rows; ValueError at the first length that is not an integer. */
  function ConvertLengths(raws: seq<RawIsoLen>, parse: string -> Option<int>): Result<seq<IsoLen>>
  {
    if raws == [] then Ok([])
    else
      match ConvertLengths(raws[..|raws| - 1], parse)
      case Err(e) => Err(e)
      case Ok(rows) =>
        var raw := raws[|raws| - 1];
        match parse(raw.length)
        case None => Err(ValueError("invalid literal for int() with base 10"))
        case Some(n) => Ok(rows + [IsoLen(raw.isoform, raw.gene, n)])
  }

  function IsoLenAll(lines: seq<string>): Result<seq<IsoLen>>
  {
    match RawIsoLens(lines)
    case Err(e) => Err(e)
    case Ok(raws) => ConvertLengths(raws, ParseInt)
  }

  /** `IsoLenTab`: the reading loop that collects fields 4, 5 and 6 of every
      header (the three parallel lists, kept here as one list of triples), then
      the conversion of the lengths. */
  method IsoLenTab(lines: seq<string>) returns (r: Result<seq<IsoLen>>)
    ensures r == IsoLenAll(lines)
  {
    var raws: seq<RawIsoLen> := [];
    for i := 0 to |lines|
      invariant RawIsoLens(lines[..i]) == Ok(raws)
    {
      assert lines[..i + 1][..i] == lines[..i];
      var line := lines[i];
      if StartsWith(line, ">") {
        var fields := Split(line, "|");
        if |fields| < 7 {
          RawIsoLensErrorStays(lines, i + 1);
          return Err(IndexError("list index out of range"));
        }
        raws := raws + [RawIsoLen(BeforeDoubleQuote(fields[4]), BeforeDoubleQuote(fields[5]), BeforeDoubleQuote(fields[6]))];
      }
    }
    assert lines[..|lines|] == lines;
    r := ParseLengths(raws);
  }

  /** `[int(x_len) for x_len in lens]`, stopping at the first ValueError. */
  method ParseLengths(raws: seq<RawIsoLen>) returns (r: Result<seq<IsoLen>>)
    ensures r == ConvertLengths(raws, ParseInt)
  {
    var rows: seq<IsoLen> := [];
    for i := 0 to |raws|
      invariant ConvertLengths(raws[..i], ParseInt) == Ok(rows)
    {
      assert raws[..i + 1][..i] == raws[..i];
      var n := ParseInt(raws[i].length);
      if n.None? {
        ConvertLengthsErrorStays(raws, ParseInt, i + 1);
        return Err(ValueError("invalid literal for int() with base 10"));
      }
      rows := rows + [IsoLen(raws[i].isoform, raws[i].gene, n.value)];
    }
    assert raws[..|raws|] == raws;
    return Ok(rows);
  }

  /** Once a header has too few fields, the later lines change nothing. */
  lemma {:induction false} RawIsoLensErrorStays(lines: seq<string>, i: nat)
    requires i <= |lines| && RawIsoLens(lines[..i]).Err?
    ensures RawIsoLens(lines) == RawIsoLens(lines[..i])
  {
    if i < |lines| {
      var init := lines[..|lines| - 1];
      assert init[..i] == lines[..i];
      RawIsoLensErrorStays(init, i);
    } else {
      assert lines[..i] == lines;
    }
  }

  /** Once a length fails to convert, the later ones change nothing. */
  lemma {:induction false} ConvertLengthsErrorStays(raws: seq<RawIsoLen>, parse: string -> Option<int>, i: nat)
    requires i <= |raws| && ConvertLengths(raws[..i], parse).Err?
    ensures ConvertLengths(raws, parse) == ConvertLengths(raws[..i], parse)
  {
    if i < |raws| {
      var init := raws[..|raws| - 1];
      assert init[..i] == raws[..i];
      ConvertLengthsErrorStays(init, parse, i);
    } else {
      assert raws[..i] == raws;
    }
  }

  /** The conversion keeps the rows' order and fields and turns each length into its integer. */
  lemma {:induction false} ConvertLengthsRows(raws: seq<RawIsoLen>, parse: string -> Option<int>)
    requires ConvertLengths(raws, parse).Ok?
    ensures |ConvertLengths(raws, parse).value| == |raws|
    ensures forall i :: 0 <= i < |raws| ==>
              var row := ConvertLengths(raws, parse).value[i];
              row.isoform == raws[i].isoform && row.gene == raws[i].gene && parse(raws[i].length) == Some(row.length)
  {
    if raws != [] {
      var n := |raws| - 1;
      var init := raws[..n];
      ConvertLengthsRows(init, parse);
      assert forall i :: 0 <= i < n ==> init[i] == raws[i];
    }
  }

  /** The conversion fails exactly when some length is not an integer. */
  lemma {:induction false} ConvertLengthsFails(raws: seq<RawIsoLen>, parse: string -> Option<int>)
    ensures ConvertLengths(raws, parse).Err? <==> exists i :: 0 <= i < |raws| && parse(raws[i].length).None?
  {
    if raws != [] {
      var n := |raws| - 1;
      var init := raws[..n];
      ConvertLengthsFails(init, parse);
      assert forall i :: 0 <= i < n ==> init[i] == raws[i];
    }
  }

  /** A GENCODE header whose fields 4, 5 and 6 hold no `|` and no `""` yields those three fields. */
  lemma HeaderFieldsOfGencode(fields: seq<string>)
    requires |fields| >= 7
    requires forall i :: 0 <= i < |fields| ==> '|' !in fields[i]
    requires !Contains(fields[4], DoubleQuote) && !Contains(fields[5], DoubleQuote) && !Contains(fields[6], DoubleQuote)
    ensures HeaderFields(Join(fields, "|")) == Ok(RawIsoLen(fields[4], fields[5], fields[6]))
  {
    SplitJoin(fields, '|');
    SplitWithoutSep(fields[4], DoubleQuote);
    SplitWithoutSep(fields[5], DoubleQuote);
    SplitWithoutSep(fields[6], DoubleQuote);
  }

  /** A file of one header line gives the one row its fields make. */
  lemma IsoLenOfOneLine(line: string)
    requires StartsWith(line, ">") && HeaderFields(line).Ok?
    ensures IsoLenAll([line]) == ConvertLengths([HeaderFields(line).value], ParseInt)
  {
    var none: seq<string> := [];
    assert [line][..0] == none;
    var noRaws: seq<RawIsoLen> := [];
    assert RawIsoLens([line]) == Ok(noRaws + [HeaderFields(line).value]);
    assert noRaws + [HeaderFields(line).value] == [HeaderFields(line).value];
  }

  lemma ConvertOne(raw: RawIsoLen, parse: string -> Option<int>)
    requires parse(raw.length).Some?
    ensures ConvertLengths([raw], parse) == Ok([IsoLen(raw.isoform, raw.gene, parse(raw.length).value)])
  {
    var noRaws: seq<RawIsoLen> := [];
    assert [raw][..0] == noRaws;
    var noRows: seq<IsoLen> := [];
    assert noRows + [IsoLen(raw.isoform, raw.gene, parse(raw.length).value)] == [IsoLen(raw.isoform, raw.gene, parse(raw.length).value)];
  }

  /** A FASTA header line `>f0|...|f6|...` whose sixth field is the decimal
      length gives one row with its isoform name, gene name and that length. */
  lemma IsoLenOfHeader(fields: seq<string>, n: nat)
    requires |fields| >= 7 && StartsWith(fields[0], ">")
    requires forall i :: 0 <= i < |fields| ==> '|' !in fields[i]
    requires !Contains(fields[4], DoubleQuote) && !Contains(fields[5], DoubleQuote)
    requires fields[6] == NatToString(n)
    ensures IsoLenAll([Join(fields, "|")]) == Ok([IsoLen(fields[4], fields[5], n)])
  {
    var line := Join(fields, "|");
    if Contains(fields[6], DoubleQuote) {
      ContainsEachChar(fields[6], DoubleQuote, 0);
      assert false;
    }
    HeaderFieldsOfGencode(fields);
    assert line[..|fields[0]|] == fields[0];
    IsoLenOfOneLine(line);
    ParseIntToString(n);
    assert IntToString(n) == fields[6];
    var raw := RawIsoLen(fields[4], fields[5], fields[6]);
    ConvertOne(raw, ParseInt);
  }

  // ---------------------------------------------------------------------------
  // GeneLenTab: minimum and maximum isoform length per gene
  // ---------------------------------------------------------------------------

  /** The least length among the rows of gene `g`, if it has any. */
  function MinLen(rows: seq<IsoLen>, g: string): Option<int>
  {
    if rows == [] then None
    else
      var last := rows[|rows| - 1];
      var m := MinLen(rows[..|rows| - 1], g);
      if last.gene != g then m
      else if m.Some? && m.value <= last.length then m
      else Some(last.length)
  }

  /** The greatest length among the rows of gene `g`, if it has any. */
  function MaxLen(rows: seq<IsoLen>, g: string): Option<int>
  {
    if rows == [] then None
    else
      var last := rows[|rows| - 1];
      var m := MaxLen(rows[..|rows| - 1], g);
      if last.gene != g then m
      else if m.Some? && m.value >= last.length then m
      else Some(last.length)
  }

  /** The minimum is defined exactly for the genes that have rows, is the length
      of one of them and is no greater than any of them; likewise the maximum. */
  lemma {:induction false} MinMaxLen(rows: seq<IsoLen>, g: string)
    ensures MinLen(rows, g).Some? <==> exists i :: 0 <= i < |rows| && rows[i].gene == g
    ensures MaxLen(rows, g).Some? <==> MinLen(rows, g).Some?
    ensures MinLen(rows, g).Some? ==>
              && (exists i :: 0 <= i < |rows| && rows[i].gene == g && rows[i].length == MinLen(rows, g).value)
              && (exists i :: 0 <= i < |rows| && rows[i].gene == g && rows[i].length == MaxLen(rows, g).value)
              && (forall i :: 0 <= i < |rows| && rows[i].gene == g ==>
                    MinLen(rows, g).value <= rows[i].length <= MaxLen(rows, g).value)
  {
    if rows != [] {
      var init := rows[..|rows| - 1];
      MinMaxLen(init, g);
      assert forall i :: 0 <= i < |init| ==> init[i] == rows[i];
    }
  }

  /** A gene's minimum length never exceeds its maximum. */
  lemma MinNotAboveMax(rows: seq<IsoLen>, g: string)
    requires MinLen(rows, g).Some?
    ensures MaxLen(rows, g).Some? && MinLen(rows, g).value <= MaxLen(rows, g).value
  {
    MinMaxLen(rows, g);
  }

  /** One row of the gene length table (the average column is not modelled). */
  datatype GeneLen = GeneLen(gene: string, minLen: int, maxLen: int)

  function Genes(rows: seq<IsoLen>): (gs: seq<string>)
    ensures |gs| == |rows| && forall i :: 0 <= i < |rows| ==> gs[i] == rows[i].gene
  {
    seq(|rows|, i requires 0 <= i < |rows| => rows[i].gene)
  }

  /** `groupby('gene').length.agg(['min', 'max'])`: one row per gene, genes in increasing order. */
  function GeneLenTab(rows: seq<IsoLen>): (table: seq<GeneLen>)
    ensures |table| == |SortedSet(Genes(rows))|
    ensures forall i :: 0 <= i < |table| ==> table[i].gene == SortedSet(Genes(rows))[i]
  {
    var gs := SortedSet(Genes(rows));
    seq(|gs|, i requires 0 <= i < |gs| =>
      var g := gs[i];
      var lo := MinLen(rows, g);
      var hi := MaxLen(rows, g);
      GeneLen(g, if lo.Some? then lo.value else 0, if hi.Some? then hi.value else 0))
  }

  /** The table lists each gene of the isoform table once, in increasing order,
      with the least and greatest length of its isoforms, least first. */
  lemma GeneLenTabRows(rows: seq<IsoLen>)
    ensures forall i, j :: 0 <= i < j < |GeneLenTab(rows)| ==> LexLess(GeneLenTab(rows)[i].gene, GeneLenTab(rows)[j].gene)
    ensures (set t | t in GeneLenTab(rows) :: t.gene) == (set r | r in rows :: r.gene)
    ensures forall i :: 0 <= i < |GeneLenTab(rows)| ==>
              var row := GeneLenTab(rows)[i];
              && MinLen(rows, row.gene) == Some(row.minLen)
              && MaxLen(rows, row.gene) == Some(row.maxLen)
              && row.minLen <= row.maxLen
  {
    var table := GeneLenTab(rows);
    var gs := SortedSet(Genes(rows));
    forall i | 0 <= i < |table|
      ensures MinLen(rows, table[i].gene) == Some(table[i].minLen)
      ensures MaxLen(rows, table[i].gene) == Some(table[i].maxLen)
      ensures table[i].minLen <= table[i].maxLen
    {
      assert gs[i] in Genes(rows);
      MinMaxLen(rows, gs[i]);
    }
    forall r | r in rows ensures r.gene in (set t | t in table :: t.gene) {
      assert r.gene in Genes(rows);
      var j :| 0 <= j < |gs| && gs[j] == r.gene;
      assert table[j] in table;
    }
    forall t | t in table ensures t.gene in (set r | r in rows :: r.gene) {
      var i :| 0 <= i < |table| && table[i] == t;
      assert gs[i] in Genes(rows);
      var k :| 0 <= k < |rows| && rows[k].gene == t.gene;
      assert rows[k] in rows;
    }
  }
}
