/** Conversion of a PacBio protein database to PoGo-compatible identifiers:
    every PacBio accession of the FASTA or the GTF gets a synthetic ENST, an
    ENSG (known from GENCODE through its gene name, or synthetic), the GTF
    attribute column is rewritten with them, and a `gene` row spanning each
    ENSG's rows is put in front of them. */
module PogoIds {
  import opened Wrappers
  import opened Text
  import opened Collections
  import opened ReferenceTables
  import RefineOrf

  // ---------------------------------------------------------------------------
  // The three input maps
  // ---------------------------------------------------------------------------

  /** A line of the ENSG-to-gene-name file: the stripped gene name (second tab
      field) against the ENSG of the first tab field, cut at its first `.`. */
  function GeneEnsgEntry(line: string): Result<(string, string)>
  {
    var fields := Split(line, "\t");
    if |fields| < 2 then Err(IndexError("list index out of range"))
    else Ok((Strip(fields[1]), Split(fields[0], ".")[0]))
  }

  /** A line `ensg \t name \n`, as the ENSG-to-gene-name extraction writes it,
      reads back as the name against the ENSG without its version. */
  lemma GeneEnsgEntryOfWritten(ensg: string, name: string)
    requires '\t' !in ensg && '\t' !in name
    requires name == [] || (name[0] !in Whitespace && name[|name| - 1] !in Whitespace)
    ensures GeneEnsgEntry(ensg + "\t" + name + "\n") == Ok((name, Split(ensg, ".")[0]))
  {
    assert '\t' !in name + "\n";
    SplitPair(ensg, name + "\n", '\t');
    assert ensg + "\t" + name + "\n" == ensg + ['\t'] + (name + "\n");
    StripNewline(name);
  }

  /** The ENSGs of `gene_to_ensg` carry no version suffix. */
  lemma GeneToEnsgUnversioned(lines: seq<string>)
    requires DictFrom(lines, GeneEnsgEntry).Ok?
    ensures forall g :: g in DictFrom(lines, GeneEnsgEntry).value ==> '.' !in DictFrom(lines, GeneEnsgEntry).value[g]
  {
    var m := DictFrom(lines, GeneEnsgEntry).value;
    forall g | g in m ensures '.' !in m[g] {
      DictFromKeys(lines, GeneEnsgEntry, g);
      var i :| 0 <= i < |lines| && GeneEnsgEntry(lines[i]) == Ok((g, m[g]));
      SplitFirstChar(Split(lines[i], "\t")[0], '.');
    }
  }

  const GeneNameMark: string := "GN="

  /** A FASTA description: the PacBio accession (second `|`-field) against the
      gene name (the stripped text after the first `GN=`). */
  function FastaAccGene(description: string): Result<(string, string)>
  {
    var bars := Split(description, "|");
    if |bars| < 2 then Err(IndexError("list index out of range"))
    else
      var afterMark := Split(description, GeneNameMark);
      if |afterMark| < 2 then Err(IndexError("list index out of range"))
      else Ok((bars[1], Strip(afterMark[1])))
  }

  /** What a description gives once its two splits are known. */
  lemma FastaAccGeneOf(description: string, pre: string, gene: string)
    requires Split(description, GeneNameMark) == [pre, gene] && Strip(gene) == gene
    ensures |Split(description, "|")| >= 2 ==> FastaAccGene(description) == Ok((Split(description, "|")[1], gene))
  {
  }

  /** In `pre + "GN=" + gene` the first `GN=` is the one after `pre` when `pre` has no `=`. */
  lemma MarkAfter(pre: string, gene: string)
    requires '=' !in pre
    ensures forall j: nat :: j < |pre| ==> !OccursAt(pre + GeneNameMark + gene, GeneNameMark, j)
  {
    var d := pre + GeneNameMark + gene;
    forall j: nat | j < |pre| ensures !OccursAt(d, GeneNameMark, j) {
      if j + 3 <= |d| {
        assert d[j..j + 3][2] == d[j + 2];
        if j + 2 < |pre| {
          assert d[j + 2] == pre[j + 2];
        } else if j + 2 == |pre| {
          assert d[j + 2] == 'G';
        } else {
          assert d[j + 2] == 'N';
        }
      }
    }
  }

  /** The gene name read from a refined description is the one written into it. */
  lemma RefinedGeneName(baseAcc: string, gene: string)
    requires '=' !in baseAcc && '=' !in gene
    requires gene == [] || (gene[0] !in Whitespace && gene[|gene| - 1] !in Whitespace)
    ensures var d := RefineOrf.RefinedHeader(baseAcc, Some(gene))[1..];
            |Split(d, "|")| >= 2 ==> FastaAccGene(d) == Ok((Split(d, "|")[1], gene))
  {
    var pre := "pb|" + baseAcc + "|fullname ";
    var h := RefineOrf.RefinedHeader(baseAcc, Some(gene));
    assert h == ">" + pre + GeneNameMark + gene;
    assert h[1..] == pre + GeneNameMark + gene;
    MarkAfter(pre, gene);
    if Contains(gene, GeneNameMark) {
      ContainsEachChar(gene, GeneNameMark, 2);
    }
    SplitOnce(pre, GeneNameMark, gene);
    StripUnchanged(gene, Whitespace);
    FastaAccGeneOf(h[1..], pre, gene);
  }

  /** The description of an entry of the refined protein database (its header
      without the `>`) gives back the base accession and the gene name. */
  lemma FastaAccGeneOfRefined(baseAcc: string, gene: string)
    requires '|' !in baseAcc && '=' !in baseAcc
    requires '|' !in gene && '=' !in gene
    requires gene == [] || (gene[0] !in Whitespace && gene[|gene| - 1] !in Whitespace)
    ensures FastaAccGene(RefineOrf.RefinedHeader(baseAcc, Some(gene))[1..]) == Ok((baseAcc, gene))
  {
    RefineOrf.RefinedHeaderFields(baseAcc, gene);
    RefinedGeneName(baseAcc, gene);
  }

  /** The description of a refined entry that has no gene name has no `GN=`, so reading it raises IndexError. */
  lemma FastaAccGeneOfRefinedNoGene(baseAcc: string)
    requires '=' !in baseAcc
    ensures FastaAccGene(RefineOrf.RefinedHeader(baseAcc, None)[1..]).Err?
  {
    var d := RefineOrf.RefinedHeader(baseAcc, None)[1..];
    assert d == "pb|" + baseAcc;
    if Contains(d, GeneNameMark) {
      ContainsEachChar(d, GeneNameMark, 2);
      assert false;
    }
    SplitWithoutSep(d, GeneNameMark);
  }

  /** A line of the PacBio GTF: the accession (second `|`-field of the text
      after `transcript_id "`) against its gene (the gene_id value) and its
      descriptor (the transcript_id value). */
  function GtfAccInfo(line: string): Result<(string, (string, string))>
  {
    var gene := AttrValue(line, GeneIdKey);
    var afterId := Split(line, TranscriptIdKey);
    if gene.None? || |afterId| < 2 then Err(IndexError("list index out of range"))
    else
      var bars := Split(afterId[1], "|");
      if |bars| < 2 then Err(IndexError("list index out of range"))
      else Ok((bars[1], (gene.value, AttrValue(line, TranscriptIdKey).value)))
  }

  /** A GTF line is read only when it has both a gene_id and a transcript_id,
      and the accession read from it holds no `|`. */
  lemma GtfAccInfoReads(line: string)
    ensures GtfAccInfo(line).Ok? ==> Contains(line, GeneIdKey) && Contains(line, TranscriptIdKey)
    ensures GtfAccInfo(line).Ok? ==> '|' !in GtfAccInfo(line).value.0
  {
    AttrValueFound(line, GeneIdKey);
    var afterId := Split(line, TranscriptIdKey);
    if Find(line, TranscriptIdKey).None? {
      assert |afterId| == 1;
    }
    if |afterId| >= 2 {
      SplitPiecesFreeChar(afterId[1], '|');
    }
  }

  /** Reading a line fails exactly when it lacks `gene_id "` or `transcript_id "`,
      or when the text after the first `transcript_id "` (up to the next one)
      holds no `|`, so that there is no second bar field to take. */
  lemma GtfAccInfoFails(line: string)
    ensures GtfAccInfo(line).Err? <==>
              || !Contains(line, GeneIdKey)
              || match Find(line, TranscriptIdKey)
                 case None => true
                 case Some(k) => '|' !in Split(line[k + |TranscriptIdKey|..], TranscriptIdKey)[0]
  {
    AttrValueFound(line, GeneIdKey);
    match Find(line, TranscriptIdKey)
    case None =>
      assert |Split(line, TranscriptIdKey)| == 1;
    case Some(k) =>
      SplitAfterFirst(line, TranscriptIdKey, k);
      var piece := Split(line[k + |TranscriptIdKey|..], TranscriptIdKey)[0];
      assert Split(line, TranscriptIdKey)[1] == piece;
      ContainsChar(piece, '|');
      if '|' !in piece {
        SplitWithoutSep(piece, "|");
      }
  }

  /** On a PacBio GTF line whose gene_id is `g` and whose transcript_id is
      `d1|acc|rest`, the accession read is `acc` and its pair is the gene and
      the whole transcript_id. */
  lemma GtfAccInfoOfLine(line: string, kg: nat, g: string, yg: string,
                         kt: nat, d1: string, acc: string, rest: string, post: string)
    requires Find(line, GeneIdKey) == Some(kg) && Find(line, TranscriptIdKey) == Some(kt)
    requires line[kg + |GeneIdKey|..] == g + "\"" + yg
    requires line[kt + |TranscriptIdKey|..] == d1 + "|" + acc + "|" + rest + "\"" + post
    requires !Contains(line[kt + |TranscriptIdKey|..], TranscriptIdKey)
    requires '"' !in g && ' ' !in g
    requires '|' !in d1 && '|' !in acc
    requires '"' !in d1 + "|" + acc + "|" + rest && ' ' !in d1 + "|" + acc + "|" + rest
    ensures GtfAccInfo(line) == Ok((acc, (g, d1 + "|" + acc + "|" + rest)))
  {
    var d := d1 + "|" + acc + "|" + rest;
    var after := line[kt + |TranscriptIdKey|..];
    IdKeysQuoted();
    AttrValueOf(line, GeneIdKey, kg, g, yg);
    AttrValueOf(line, TranscriptIdKey, kt, d, post);
    var tail := rest + "\"" + post;
    AppendThree(d1 + "|" + acc + "|", rest, "\"", post);
    SecondBarAfterKey(line, TranscriptIdKey, kt, d1, acc, tail);
  }

  lemma AppendThree<T>(x: seq<T>, a: seq<T>, b: seq<T>, c: seq<T>)
    ensures x + a + b + c == x + (a + b + c)
  {
  }

  /** The accession is the second bar field of the text after the only
      occurrence of the key (`transcript_id "` in the GTF reader). */
  lemma SecondBarAfterKey(line: string, key: string, k: nat, d1: string, acc: string, tail: string)
    requires key != [] && Find(line, key) == Some(k)
    requires k + |key| <= |line| && line[k + |key|..] == d1 + "|" + acc + "|" + tail
    requires !Contains(line[k + |key|..], key)
    requires '|' !in d1 && '|' !in acc
    ensures |Split(line, key)| >= 2
    ensures var bars := Split(Split(line, key)[1], "|"); |bars| >= 2 && bars[1] == acc
  {
    OnlyOccurrence(line, key, k);
    SecondBarField(line[k + |key|..], d1, acc, tail);
  }

  /** After the only occurrence of a key, the second piece of the split is the rest of the line. */
  lemma OnlyOccurrence(line: string, key: string, k: nat)
    requires key != [] && Find(line, key) == Some(k)
    requires k + |key| <= |line| && !Contains(line[k + |key|..], key)
    ensures |Split(line, key)| == 2 && Split(line, key)[1] == line[k + |key|..]
  {
    SplitAfterFirst(line, key, k);
    SplitWithoutSep(line[k + |key|..], key);
  }

  /** The second `|`-field of `d1|acc|tail`, when neither `d1` nor `acc` holds a bar. */
  lemma SecondBarField(after: string, d1: string, acc: string, tail: string)
    requires after == d1 + "|" + acc + "|" + tail
    requires '|' !in d1 && '|' !in acc
    ensures var bars := Split(after, "|"); |bars| >= 2 && bars[1] == acc
  {
    var t := acc + "|" + tail;
    assert after == d1 + ['|'] + t;
    SplitCons(d1, t, '|');
    SplitCons(acc, tail, '|');
  }

  // ---------------------------------------------------------------------------
  // Synthetic ENSTs
  // ---------------------------------------------------------------------------

  /** `'ENST' + str(90000000000 + index)`. */
  function EnstName(index: nat): string
  {
    "ENST" + NatToString(90000000000 + index)
  }

  /** Different ranks give different ENSTs. */
  lemma EnstNameInjective(i: nat, j: nat)
    requires EnstName(i) == EnstName(j)
    ensures i == j
  {
    assert EnstName(i)[4..] == NatToString(90000000000 + i);
    assert EnstName(j)[4..] == NatToString(90000000000 + j);
    IntToStringInjective(90000000000 + i, 90000000000 + j);
  }

  lemma Pow10Values()
    ensures Pow10(10) == 10000000000 && Pow10(11) == 100000000000
  {
    assert Pow10(1) == 10;
    assert Pow10(2) == 100;
    assert Pow10(3) == 1000;
    assert Pow10(4) == 10000;
    assert Pow10(5) == 100000;
    assert Pow10(6) == 1000000;
    assert Pow10(7) == 10000000;
    assert Pow10(8) == 100000000;
    assert Pow10(9) == 1000000000;
  }

  /** Below ten billion ranks, a later rank gives a lexicographically later ENST. */
  lemma EnstNameOrder(i: nat, j: nat)
    requires i < j < 10000000000
    ensures LexLess(EnstName(i), EnstName(j))
  {
    Pow10Values();
    NatToStringLength(90000000000 + i, 10);
    NatToStringLength(90000000000 + j, 10);
    NatToStringOrder(90000000000 + i, 90000000000 + j);
    LexLessCommonPrefix("ENST", NatToString(90000000000 + i), NatToString(90000000000 + j));
  }

  /** `m` gives the accession at rank `i` of `accs` the ENST of rank `i`, and has no other keys. */
  ghost predicate EnstAssigned(accs: seq<string>, m: map<string, string>)
  {
    && (forall a :: a in m <==> a in accs)
    && forall i :: 0 <= i < |accs| ==> m[accs[i]] == EnstName(i)
  }

  /** The loop that numbers the sorted accessions. */
  method AssignEnsts(accs: seq<string>) returns (pbToEnst: map<string, string>)
    requires forall i, j :: 0 <= i < j < |accs| ==> accs[i] != accs[j]
    ensures EnstAssigned(accs, pbToEnst)
  {
    pbToEnst := map[];
    for index := 0 to |accs|
      invariant forall a :: a in pbToEnst <==> a in accs[..index]
      invariant forall i :: 0 <= i < index ==> accs[i] in pbToEnst && pbToEnst[accs[i]] == EnstName(i)
    {
      assert accs[..index + 1] == accs[..index] + [accs[index]];
      pbToEnst := pbToEnst[accs[index] := EnstName(index)];
    }
    assert accs[..|accs|] == accs;
  }

  /** Two accessions never share an ENST, and the ENSTs follow the order of the
      accessions when there are fewer than ten billion of them. */
  lemma EnstAssignmentInjectiveMonotone(accs: seq<string>, m: map<string, string>, a: string, b: string)
    requires StrictlySorted(accs) && EnstAssigned(accs, m)
    requires a in m && b in m
    ensures m[a] == m[b] ==> a == b
    ensures LexLess(a, b) && |accs| <= 10000000000 ==> LexLess(m[a], m[b])
  {
    var i :| 0 <= i < |accs| && accs[i] == a;
    var j :| 0 <= j < |accs| && accs[j] == b;
    if m[a] == m[b] {
      EnstNameInjective(i, j);
    }
    if LexLess(a, b) && |accs| <= 10000000000 {
      if j < i {
        LexLessAsymmetric(b, a);
      } else if i == j {
        LexLessIrreflexive(a);
      } else {
        EnstNameOrder(i, j);
      }
    }
  }

  // ---------------------------------------------------------------------------
  // Gene names and ENSGs
  // ---------------------------------------------------------------------------

  /** The gene name of an accession: from the GTF when it is there, otherwise from the FASTA. */
  function GeneNameOf(acc: string, fasta: map<string, string>, gtf: map<string, (string, string)>): Result<string>
  {
    if acc in gtf then Ok(gtf[acc].0)
    else if acc in fasta then Ok(fasta[acc])
    else Err(Exception("PB accession " + acc + " not found in either GTF or FASTA file"))
  }

  /** Every accession of the union has a gene name, the GTF's when it has one:
      the "not found" exception cannot be raised. */
  lemma GeneNameOfUnion(acc: string, fasta: map<string, string>, gtf: map<string, (string, string)>)
    requires acc in fasta.Keys + gtf.Keys
    ensures GeneNameOf(acc, fasta, gtf).Ok?
    ensures GeneNameOf(acc, fasta, gtf).value == if acc in gtf then gtf[acc].0 else fasta[acc]
  {
  }

  /** `'ENSG' + str(90000000000 + int(acc.split('.')[1]))`. */
  function SyntheticEnsg(acc: string): Result<string>
  {
    var pieces := Split(acc, ".");
    if |pieces| < 2 then Err(IndexError("list index out of range"))
    else
      match ParseInt(pieces[1])
      case None => Err(ValueError("invalid literal for int() with base 10: " + pieces[1]))
      case Some(n) => Ok("ENSG" + IntToString(90000000000 + n))
  }

  /** The synthetic ENSG of an accession whose second `.`-field reads as `n`. */
  lemma SyntheticEnsgOf(acc: string, n: int)
    requires |Split(acc, ".")| >= 2 && ParseInt(Split(acc, ".")[1]) == Some(n)
    ensures SyntheticEnsg(acc) == Ok("ENSG" + IntToString(90000000000 + n))
  {
  }

  /** A PacBio accession `PB.<n>.<k>` gets the ENSG numbered after its gene index `n`. */
  lemma SyntheticEnsgOfPacBio(n: nat, k: string)
    requires '.' !in k
    ensures SyntheticEnsg("PB." + NatToString(n) + "." + k) == Ok("ENSG" + NatToString(90000000000 + n))
  {
    var digits := NatToString(n);
    var acc := "PB." + digits + "." + k;
    assert Split(acc, ".") == ["PB", digits, k] by {
      assert forall i :: 0 <= i < |digits| ==> digits[i] != '.';
      assert acc == "PB" + ['.'] + digits + ['.'] + k;
      SplitTriple("PB", digits, k, '.');
    }
    ParseIntOfNat(n);
    SyntheticEnsgOf(acc, n);
  }

  /** The pair `pb_to_ensg` records for one accession: the ENSG of its gene name
      when GENCODE knows that name, otherwise the synthetic one. */
  function EnsgEntry(acc: string, fasta: map<string, string>, gtf: map<string, (string, string)>,
                     geneToEnsg: map<string, string>): Result<(string, string)>
  {
    match GeneNameOf(acc, fasta, gtf)
    case Err(e) => Err(e)
    case Ok(gene) =>
      if gene in geneToEnsg then Ok((acc, geneToEnsg[gene]))
      else
        match SyntheticEnsg(acc)
        case Err(e) => Err(e)
        case Ok(ensg) => Ok((acc, ensg))
  }

  /** `EnsgEntry` as the function the ENSG loop applies to every accession. */
  function EnsgParser(fasta: map<string, string>, gtf: map<string, (string, string)>,
                      geneToEnsg: map<string, string>): string -> Result<(string, string)>
  {
    acc => EnsgEntry(acc, fasta, gtf, geneToEnsg)
  }

  /** The pair recorded for an accession is keyed by that accession. */
  lemma EnsgEntryKey(acc: string, fasta: map<string, string>, gtf: map<string, (string, string)>,
                     geneToEnsg: map<string, string>)
    ensures EnsgEntry(acc, fasta, gtf, geneToEnsg).Ok? ==> EnsgEntry(acc, fasta, gtf, geneToEnsg).value.0 == acc
  {
  }

  /** When the ENSG loop finishes, its keys are exactly the accessions it visited. */
  lemma EnsgDictKeys(accs: seq<string>, fasta: map<string, string>, gtf: map<string, (string, string)>,
                     geneToEnsg: map<string, string>)
    requires DictFrom(accs, EnsgParser(fasta, gtf, geneToEnsg)).Ok?
    ensures forall a :: a in DictFrom(accs, EnsgParser(fasta, gtf, geneToEnsg)).value <==> a in accs
  {
    var parse := EnsgParser(fasta, gtf, geneToEnsg);
    var m := DictFrom(accs, parse).value;
    CollectAllOk(accs, parse);
    forall i | 0 <= i < |accs| ensures parse(accs[i]).Ok? && parse(accs[i]).value.0 == accs[i] {
      EnsgEntryKey(accs[i], fasta, gtf, geneToEnsg);
    }
    forall a ensures a in m <==> a in accs {
      DictFromKeys(accs, parse, a);
    }
  }

  /** Every accession's ENSG is the one `EnsgEntry` makes for it. */
  lemma EnsgDictEntries(accs: seq<string>, fasta: map<string, string>, gtf: map<string, (string, string)>,
                        geneToEnsg: map<string, string>)
    requires DictFrom(accs, EnsgParser(fasta, gtf, geneToEnsg)).Ok?
    ensures forall a :: a in DictFrom(accs, EnsgParser(fasta, gtf, geneToEnsg)).value ==>
              EnsgEntry(a, fasta, gtf, geneToEnsg) == Ok((a, DictFrom(accs, EnsgParser(fasta, gtf, geneToEnsg)).value[a]))
  {
    var parse := EnsgParser(fasta, gtf, geneToEnsg);
    var m := DictFrom(accs, parse).value;
    forall a | a in m ensures EnsgEntry(a, fasta, gtf, geneToEnsg) == Ok((a, m[a])) {
      DictFromKeys(accs, parse, a);
      var i :| 0 <= i < |accs| && parse(accs[i]) == Ok((a, m[a]));
      EnsgEntryKey(accs[i], fasta, gtf, geneToEnsg);
    }
  }

  // ---------------------------------------------------------------------------
  // The whole mapping
  // ---------------------------------------------------------------------------

  /** The three maps the script reads: gene name to ENSG, and accession to
      gene name (FASTA) and to gene and descriptor (GTF). */
  datatype InputMaps = InputMaps(
    geneToEnsg: map<string, string>,
    fasta: map<string, string>,
    gtf: map<string, (string, string)>)

  /** Reading the three files in the script's order: the first exception stops it. */
  function ReadInputs(ensgLines: seq<string>, descriptions: seq<string>, gtfLines: seq<string>): Result<InputMaps>
  {
    match DictFrom(ensgLines, GeneEnsgEntry)
    case Err(e) => Err(e)
    case Ok(known) =>
      match DictFrom(descriptions, FastaAccGene)
      case Err(e) => Err(e)
      case Ok(fasta) =>
        match DictFrom(gtfLines, GtfAccInfo)
        case Err(e) => Err(e)
        case Ok(gtf) => Ok(InputMaps(known, fasta, gtf))
  }

  /** The three reading loops. */
  method ReadInputMaps(ensgLines: seq<string>, descriptions: seq<string>, gtfLines: seq<string>)
    returns (r: Result<InputMaps>)
    ensures r == ReadInputs(ensgLines, descriptions, gtfLines)
  {
    var known := FillDict(ensgLines, GeneEnsgEntry);
    if known.Err? {
      return Err(known.error);
    }
    var fasta := FillDict(descriptions, FastaAccGene);
    if fasta.Err? {
      return Err(fasta.error);
    }
    var gtf := FillDict(gtfLines, GtfAccInfo);
    if gtf.Err? {
      return Err(gtf.error);
    }
    return Ok(InputMaps(known.value, fasta.value, gtf.value));
  }

  /** Every GTF accession read from well-formed lines holds no `|`. */
  lemma ReadInputsGtfAccessions(ensgLines: seq<string>, descriptions: seq<string>, gtfLines: seq<string>)
    requires ReadInputs(ensgLines, descriptions, gtfLines).Ok?
    ensures forall a :: a in ReadInputs(ensgLines, descriptions, gtfLines).value.gtf ==> '|' !in a
  {
    var gtf := ReadInputs(ensgLines, descriptions, gtfLines).value.gtf;
    forall a | a in gtf ensures '|' !in a {
      DictFromKeys(gtfLines, GtfAccInfo, a);
      var i :| 0 <= i < |gtfLines| && GtfAccInfo(gtfLines[i]).Ok? && GtfAccInfo(gtfLines[i]).value.0 == a;
      GtfAccInfoReads(gtfLines[i]);
    }
  }

  /** The identifiers the script assigns: the sorted union of the accessions,
      their ENSTs and their ENSGs. */
  datatype Assigned = Assigned(
    accessions: seq<string>,
    pbToEnst: map<string, string>,
    pbToEnsg: map<string, string>)

  /** The ENSG loop over the union of the accessions raises exactly when the
      ENSG of some accession of the union cannot be made. */
  lemma EnsgDictFails(accs: seq<string>, fasta: map<string, string>, gtf: map<string, (string, string)>,
                      geneToEnsg: map<string, string>)
    requires forall a :: a in accs <==> a in fasta || a in gtf
    ensures DictFrom(accs, EnsgParser(fasta, gtf, geneToEnsg)).Err? <==>
              exists a :: (a in fasta || a in gtf) && EnsgEntry(a, fasta, gtf, geneToEnsg).Err?
  {
    CollectAllErr(accs, EnsgParser(fasta, gtf, geneToEnsg));
    if exists a :: (a in fasta || a in gtf) && EnsgEntry(a, fasta, gtf, geneToEnsg).Err? {
      var a :| (a in fasta || a in gtf) && EnsgEntry(a, fasta, gtf, geneToEnsg).Err?;
      var i :| 0 <= i < |accs| && accs[i] == a;
      assert EnsgParser(fasta, gtf, geneToEnsg)(accs[i]).Err?;
    }
  }

  /** Numbering the accessions and giving each its ENSG. The accessions are
      visited in sorted order when their ENSGs are assigned. */
  method AssignIds(inputs: InputMaps) returns (r: Result<Assigned>)
    ensures r.Err? <==> exists a :: (a in inputs.fasta || a in inputs.gtf) &&
                                    EnsgEntry(a, inputs.fasta, inputs.gtf, inputs.geneToEnsg).Err?
    ensures r.Ok? ==> StrictlySorted(r.value.accessions)
    ensures r.Ok? ==> forall a :: a in r.value.accessions <==> a in inputs.fasta || a in inputs.gtf
    ensures r.Ok? ==> EnstAssigned(r.value.accessions, r.value.pbToEnst)
    ensures r.Ok? ==> forall a :: a in r.value.pbToEnsg <==> a in r.value.accessions
    ensures r.Ok? ==> forall a :: a in r.value.pbToEnsg ==>
              EnsgEntry(a, inputs.fasta, inputs.gtf, inputs.geneToEnsg) == Ok((a, r.value.pbToEnsg[a]))
  {
    var f, g, known := inputs.fasta, inputs.gtf, inputs.geneToEnsg;
    var accessions := SortedKeys(f.Keys + g.Keys);
    StrictlySortedNoRepeats(accessions);
    var pbToEnst := AssignEnsts(accessions);
    var pbToEnsg := FillDict(accessions, EnsgParser(f, g, known));
    EnsgDictFails(accessions, f, g, known);
    if pbToEnsg.Err? {
      return Err(pbToEnsg.error);
    }
    EnsgDictKeys(accessions, f, g, known);
    EnsgDictEntries(accessions, f, g, known);
    return Ok(Assigned(accessions, pbToEnst, pbToEnsg.value));
  }

  // ---------------------------------------------------------------------------
  // The rewritten GTF
  // ---------------------------------------------------------------------------

  /** The attribute column of a rewritten GTF line. */
  function GtfAttributes(ensg: string, enst: string): string
  {
    GeneIdKey + ensg + "\"; " + TranscriptIdKey + enst + "\";"
  }

  /** A GTF line with its attribute column replaced: its first eight tab fields,
      then the new attributes; KeyError when its accession has no ENST or ENSG. */
  function RewriteGtfLine(line: string, pbToEnst: map<string, string>, pbToEnsg: map<string, string>): Result<string>
  {
    var afterId := Split(line, TranscriptIdKey);
    if |afterId| < 2 then Err(IndexError("list index out of range"))
    else
      var bars := Split(afterId[1], "|");
      if |bars| < 2 then Err(IndexError("list index out of range"))
      else
        var acc := bars[1];
        if acc !in pbToEnst || acc !in pbToEnsg then Err(KeyError(acc))
        else
          var ensg := Split(pbToEnsg[acc], ".")[0];
          var fields := Split(line, "\t");
          Ok(Join(Slice(fields, 0, 8), "\t") + "\t" + GtfAttributes(ensg, pbToEnst[acc]) + "\n")
  }

  /** A line that the reading loop accepted is rewritten whenever its accession has an ENST and an ENSG. */
  lemma RewriteGtfLineOk(line: string, pbToEnst: map<string, string>, pbToEnsg: map<string, string>)
    requires GtfAccInfo(line).Ok?
    requires GtfAccInfo(line).value.0 in pbToEnst && GtfAccInfo(line).value.0 in pbToEnsg
    ensures RewriteGtfLine(line, pbToEnst, pbToEnsg).Ok?
  {
  }

  /** The rewritten line has the first eight tab fields of the original
      verbatim, then the attribute column naming the line's accession's ENSG
      (without its version) and ENST, and nothing else; the accession is the
      one the reading loop took from the line. */
  lemma RewriteGtfLineColumns(line: string, pbToEnst: map<string, string>, pbToEnsg: map<string, string>)
    requires RewriteGtfLine(line, pbToEnst, pbToEnsg).Ok?
    requires |Split(line, "\t")| >= 8
    requires forall a :: a in pbToEnst ==> '\t' !in pbToEnst[a]
    requires forall a :: a in pbToEnsg ==> '\t' !in pbToEnsg[a]
    ensures |Split(line, TranscriptIdKey)| >= 2 && |Split(Split(line, TranscriptIdKey)[1], "|")| >= 2
    ensures var acc := Split(Split(line, TranscriptIdKey)[1], "|")[1];
            && acc in pbToEnst && acc in pbToEnsg
            && (GtfAccInfo(line).Ok? ==> GtfAccInfo(line).value.0 == acc)
            && Split(RewriteGtfLine(line, pbToEnst, pbToEnsg).value, "\t") ==
                 Split(line, "\t")[..8] + [GtfAttributes(Split(pbToEnsg[acc], ".")[0], pbToEnst[acc]) + "\n"]
  {
    var acc := RewrittenAccession(line, pbToEnst, pbToEnsg);
    var ensg := Split(pbToEnsg[acc], ".")[0];
    var kept := Split(line, "\t")[..8];
    assert Slice(Split(line, "\t"), 0, 8) == kept;
    EnsgTabFree(pbToEnsg[acc]);
    SplitRewritten(line, ensg, pbToEnst[acc]);
  }

  /** The accession a rewritten line was looked up by, which is also the one the
      reading loop records, and the rewritten text in terms of it. */
  lemma RewrittenAccession(line: string, pbToEnst: map<string, string>, pbToEnsg: map<string, string>)
    returns (acc: string)
    requires RewriteGtfLine(line, pbToEnst, pbToEnsg).Ok?
    ensures |Split(line, TranscriptIdKey)| >= 2 && |Split(Split(line, TranscriptIdKey)[1], "|")| >= 2
    ensures acc == Split(Split(line, TranscriptIdKey)[1], "|")[1]
    ensures acc in pbToEnst && acc in pbToEnsg
    ensures GtfAccInfo(line).Ok? ==> GtfAccInfo(line).value.0 == acc
    ensures RewriteGtfLine(line, pbToEnst, pbToEnsg).value ==
              Join(Slice(Split(line, "\t"), 0, 8), "\t") + "\t" + GtfAttributes(Split(pbToEnsg[acc], ".")[0], pbToEnst[acc]) + "\n"
  {
    acc := Split(Split(line, TranscriptIdKey)[1], "|")[1];
  }

  /** Cutting a tab-free ENSG at its version keeps it tab-free. */
  lemma EnsgTabFree(ensg: string)
    requires '\t' !in ensg
    ensures '\t' !in Split(ensg, ".")[0]
  {
    SplitFirstChar(ensg, '.');
    var p := Split(ensg, ".")[0];
    assert forall i :: 0 <= i < |p| ==> p[i] == ensg[i];
  }

  /** The first eight tab fields of a line joined again, then tab-free attributes,
      split back into those fields and the attributes. */
  lemma SplitRewritten(line: string, ensg: string, enst: string)
    requires |Split(line, "\t")| >= 8
    requires '\t' !in ensg && '\t' !in enst
    ensures var kept := Split(line, "\t")[..8];
            Split(Join(kept, "\t") + "\t" + GtfAttributes(ensg, enst) + "\n", "\t") ==
              kept + [GtfAttributes(ensg, enst) + "\n"]
  {
    var attrs := GtfAttributes(ensg, enst) + "\n";
    assert '\t' !in attrs;
    var kept := Split(line, "\t")[..8];
    assert Join(kept, "\t") + "\t" + GtfAttributes(ensg, enst) + "\n" == Join(kept, "\t") + "\t" + attrs;
    SplitPiecesFreeChar(line, '\t');
    SplitJoinSnoc(kept, attrs, '\t');
  }

  /** The loop writing the PoGo-compatible temporary GTF: one rewritten line per
      input line, stopping at the first line that raises. */
  method RewriteGtf(lines: seq<string>, pbToEnst: map<string, string>, pbToEnsg: map<string, string>)
    returns (written: seq<string>, err: Option<PyError>)
    ensures (written, err) == WriteUntilError(lines, (line: string) => RewriteGtfLine(line, pbToEnst, pbToEnsg))
    ensures err.Some? ==> err.value.IndexError? || err.value.KeyError?
  {
    written, err := [], None;
    for i := 0 to |lines|
      invariant (written, err) == WriteUntilError(lines[..i], (line: string) => RewriteGtfLine(line, pbToEnst, pbToEnsg))
      invariant err.Some? ==> err.value.IndexError? || err.value.KeyError?
    {
      assert lines[..i + 1][..i] == lines[..i];
      if err.None? {
        match RewriteGtfLine(lines[i], pbToEnst, pbToEnsg)
        case Ok(out) => written := written + [out];
        case Err(e) => err := Some(e);
      }
    }
    assert lines[..|lines|] == lines;
  }

  /** When every line was accepted by the reading loop and its accession has both
      IDs, the rewrite raises nothing and writes each line's rewrite, in order. */
  lemma RewriteGtfComplete(lines: seq<string>, pbToEnst: map<string, string>, pbToEnsg: map<string, string>)
    requires forall i :: 0 <= i < |lines| ==> GtfAccInfo(lines[i]).Ok?
    requires forall i :: 0 <= i < |lines| ==> GtfAccInfo(lines[i]).value.0 in pbToEnst && GtfAccInfo(lines[i]).value.0 in pbToEnsg
    ensures var (written, err) := WriteUntilError(lines, (line: string) => RewriteGtfLine(line, pbToEnst, pbToEnsg));
            && err.None? && |written| == |lines|
            && forall i :: 0 <= i < |lines| ==> RewriteGtfLine(lines[i], pbToEnst, pbToEnsg) == Ok(written[i])
  {
    var rewrite := (line: string) => RewriteGtfLine(line, pbToEnst, pbToEnsg);
    forall i | 0 <= i < |lines| ensures rewrite(lines[i]).Ok? {
      RewriteGtfLineOk(lines[i], pbToEnst, pbToEnsg);
    }
    WriteUntilErrorComplete(lines, rewrite);
  }

  /** The text between the two keys of the rewritten attribute column. */
  const AttrMiddle: string := "\"; transcript_id \""

  /** A character found in `a + m + b` but in neither `a` nor `b` lies in `m`. */
  lemma CharInMiddle(a: string, m: string, b: string, j: nat, c: char)
    requires j < |a + m + b| && (a + m + b)[j] == c
    requires c !in a && c !in b
    ensures |a| <= j < |a| + |m| && m[j - |a|] == c
  {
    assert forall i :: 0 <= i < |a| ==> (a + m + b)[i] == a[i];
    assert forall i :: |a| + |m| <= i < |a + m + b| ==> (a + m + b)[i] == b[i - |a| - |m|];
  }

  /** The blanks of the text between the two keys. */
  lemma AttrMiddleBlanks(i: nat)
    requires i < |AttrMiddle| && AttrMiddle[i] == ' '
    ensures i == 2 || i == 16
  {
  }

  /** In the attribute text after `gene_id "`, a blank occurs only after `";`
      (followed by `t`) and at the end of `transcript_id "` (too close to its
      `r` for `gene_id "` to fit), so `gene_id "` does not occur again. */
  lemma NoGeneIdKeyAfter(ensg: string, enst: string)
    requires '"' !in ensg && ' ' !in ensg && ' ' !in enst
    ensures !Contains(ensg + AttrMiddle + enst + "\";", GeneIdKey)
  {
    var tail := enst + "\";";
    var rest := ensg + AttrMiddle + enst + "\";";
    assert rest == ensg + AttrMiddle + tail;
    assert ' ' !in tail;
    forall q: nat | q + 9 <= |rest|
      ensures rest[q + 7] != ' ' || rest[q + 8] != '"' || rest[q] != 'g'
    {
      if rest[q + 7] == ' ' {
        CharInMiddle(ensg, AttrMiddle, tail, q + 7, ' ');
        AttrMiddleBlanks(q + 7 - |ensg|);
        if q + 7 - |ensg| == 2 {
          assert rest[q + 8] == AttrMiddle[3];
        } else {
          assert rest[q] == AttrMiddle[9];
        }
      }
    }
    forall q: nat ensures !OccursAt(rest, GeneIdKey, q) {
      if q + 9 <= |rest| {
        assert rest[q..q + 9][0] == rest[q] && rest[q..q + 9][7] == rest[q + 7] && rest[q..q + 9][8] == rest[q + 8];
      }
    }
  }

  /** `key + value + post` with `key` only at the front, `value` free of quotes
      and `post` opening with a quote: the attribute value of `key` is `value`. */
  lemma AttrValueOfOnlyKey(key: string, value: string, post: string)
    requires key != [] && !Contains(value + post, key)
    requires '"' !in value && post != [] && post[0] == '"'
    ensures AttrValue(key + value + post, key) == Some(value)
  {
    var rest := value + post;
    assert key + value + post == [] + key + rest;
    SplitOnce([], key, rest);
    UpToFirstQuote(value, post);
  }

  /** The text before the first quote of `value + post`, when `value` holds no
      quote and `post` opens with one. */
  lemma UpToFirstQuote(value: string, post: string)
    requires '"' !in value && post != [] && post[0] == '"'
    ensures Split(value + post, "\"")[0] == value
  {
    var rest := value + post;
    SplitFirstChar(rest, '"');
    assert rest[|value|] == '"';
    assert forall i :: 0 <= i < |value| ==> rest[i] == value[i];
    assert Split(rest, "\"")[0] == rest[..|value|];
  }

  /** Reading the temporary GTF back, `attribute.split('gene_id "')[1].split('"')[0]`
      gives the ENSG written into it, when neither ID holds a quote or a blank. */
  lemma GtfAttributesGeneId(ensg: string, enst: string)
    requires '"' !in ensg && ' ' !in ensg && ' ' !in enst
    ensures AttrValue(GtfAttributes(ensg, enst), GeneIdKey) == Some(ensg)
  {
    var post := AttrMiddle + enst + "\";";
    assert GtfAttributes(ensg, enst) == GeneIdKey + ensg + post;
    assert ensg + post == ensg + AttrMiddle + enst + "\";";
    NoGeneIdKeyAfter(ensg, enst);
    AttrValueOfOnlyKey(GeneIdKey, ensg, post);
  }


  // ---------------------------------------------------------------------------
  // Gene rows
  // ---------------------------------------------------------------------------

  /** The nine columns of a GTF row. */
  datatype GtfRecord = GtfRecord(
    seqname: string, source: string, feature: string, start: int, end: int,
    score: string, strand: string, frame: string, attribute: string)

  /** A row of the rewritten GTF table read back, with the ENSG taken from its
      attribute column (see `GtfAttributesGeneId`). */
  datatype EnsgRow = EnsgRow(record: GtfRecord, ensg: string)

  function Records(rows: seq<EnsgRow>): (records: seq<GtfRecord>)
    ensures |records| == |rows|
    ensures forall i :: 0 <= i < |rows| ==> records[i] == rows[i].record
  {
    seq(|rows|, i requires 0 <= i < |rows| => rows[i].record)
  }

  function MinStart(group: seq<EnsgRow>): int
    requires |group| > 0
  {
    if |group| == 1 then group[0].record.start
    else
      var m := MinStart(group[..|group| - 1]);
      var s := group[|group| - 1].record.start;
      if s < m then s else m
  }

  function MaxEnd(group: seq<EnsgRow>): int
    requires |group| > 0
  {
    if |group| == 1 then group[0].record.end
    else
      var m := MaxEnd(group[..|group| - 1]);
      var e := group[|group| - 1].record.end;
      if e > m then e else m
  }

  /** The least start is the start of some row, and no row starts earlier. */
  lemma {:induction false} MinStartIsLeast(group: seq<EnsgRow>)
    requires |group| > 0
    ensures exists i :: 0 <= i < |group| && group[i].record.start == MinStart(group)
    ensures forall i :: 0 <= i < |group| ==> MinStart(group) <= group[i].record.start
  {
    var n := |group| - 1;
    if n == 0 {
      assert group[0].record.start == MinStart(group);
    } else {
      var init := group[..n];
      MinStartIsLeast(init);
      assert forall i :: 0 <= i < n ==> init[i] == group[i];
      var a :| 0 <= a < n && init[a].record.start == MinStart(init);
      if group[n].record.start < MinStart(init) {
        assert group[n].record.start == MinStart(group);
      } else {
        assert group[a].record.start == MinStart(group);
      }
    }
  }

  /** The greatest end is the end of some row, and no row ends later. */
  lemma {:induction false} MaxEndIsGreatest(group: seq<EnsgRow>)
    requires |group| > 0
    ensures exists i :: 0 <= i < |group| && group[i].record.end == MaxEnd(group)
    ensures forall i :: 0 <= i < |group| ==> group[i].record.end <= MaxEnd(group)
  {
    var n := |group| - 1;
    if n == 0 {
      assert group[0].record.end == MaxEnd(group);
    } else {
      var init := group[..n];
      MaxEndIsGreatest(init);
      assert forall i :: 0 <= i < n ==> init[i] == group[i];
      var b :| 0 <= b < n && init[b].record.end == MaxEnd(init);
      if group[n].record.end > MaxEnd(init) {
        assert group[n].record.end == MaxEnd(group);
      } else {
        assert group[b].record.end == MaxEnd(group);
      }
    }
  }

  /** `insert_gene_row`: a `gene` row from the least start to the greatest end
      of the group, taking the other columns from its first row, in front of the group. */
  function InsertGeneRow(group: seq<EnsgRow>): seq<GtfRecord>
    requires |group| > 0
  {
    [GeneRow(group)] + Records(group)
  }

  /** The `gene` row `insert_gene_row` puts in front of a group. */
  function GeneRow(group: seq<EnsgRow>): GtfRecord
    requires |group| > 0
  {
    var first := group[0];
    GtfRecord(first.record.seqname, first.record.source, "gene", MinStart(group), MaxEnd(group),
              ".", first.record.strand, ".", "gene_id \"" + first.ensg + "\";")
  }

  /** The group's rows follow the gene row unchanged, and the gene row spans them all. */
  lemma InsertGeneRowSpans(group: seq<EnsgRow>)
    requires |group| > 0
    ensures |InsertGeneRow(group)| == |group| + 1
    ensures InsertGeneRow(group)[1..] == Records(group)
    ensures InsertGeneRow(group)[0].feature == "gene"
    ensures forall i :: 0 <= i < |group| ==>
              InsertGeneRow(group)[0].start <= group[i].record.start && group[i].record.end <= InsertGeneRow(group)[0].end
    ensures exists i :: 0 <= i < |group| && group[i].record.start == InsertGeneRow(group)[0].start
    ensures exists i :: 0 <= i < |group| && group[i].record.end == InsertGeneRow(group)[0].end
  {
    MinStartIsLeast(group);
    MaxEndIsGreatest(group);
  }

  /** The rows of one ENSG, in table order. */
  function RowsOf(rows: seq<EnsgRow>, ensg: string): (group: seq<EnsgRow>)
    ensures |group| <= |rows|
    ensures forall i :: 0 <= i < |group| ==> group[i].ensg == ensg
  {
    if rows == [] then []
    else
      var last := rows[|rows| - 1];
      RowsOf(rows[..|rows| - 1], ensg) + (if last.ensg == ensg then [last] else [])
  }

  function Ensgs(rows: seq<EnsgRow>): (ensgs: seq<string>)
    ensures |ensgs| == |rows| && forall i :: 0 <= i < |rows| ==> ensgs[i] == rows[i].ensg
  {
    seq(|rows|, i requires 0 <= i < |rows| => rows[i].ensg)
  }

  /** What `insert_gene_row` gives for one ENSG's group; nothing for an ENSG without rows. */
  function GeneBlock(rows: seq<EnsgRow>, ensg: string): seq<GtfRecord>
  {
    var group := RowsOf(rows, ensg);
    if group == [] then [] else InsertGeneRow(group)
  }

  function GeneBlocks(rows: seq<EnsgRow>): string -> seq<GtfRecord>
  {
    ensg => GeneBlock(rows, ensg)
  }

  /** `groupby('ensg').apply(insert_gene_row)` over the given ENSGs, in that order. */
  function WithGeneRows(rows: seq<EnsgRow>, ensgs: seq<string>): seq<GtfRecord>
  {
    ConcatMap(ensgs, GeneBlocks(rows))
  }

  lemma WithGeneRowsCons(rows: seq<EnsgRow>, ensgs: seq<string>)
    requires ensgs != []
    ensures WithGeneRows(rows, ensgs) == GeneBlock(rows, ensgs[0]) + WithGeneRows(rows, ensgs[1..])
  {
  }

  lemma {:induction false} RowsOfHas(rows: seq<EnsgRow>, i: nat)
    requires i < |rows|
    ensures |RowsOf(rows, rows[i].ensg)| > 0
  {
    var n := |rows| - 1;
    if i < n {
      RowsOfHas(rows[..n], i);
    }
  }

  /** The table with gene rows: one `gene` row per ENSG, groups in increasing ENSG order. */
  function GeneRowTable(rows: seq<EnsgRow>): seq<GtfRecord>
  {
    WithGeneRows(rows, SortedSet(Ensgs(rows)))
  }

  /** Number of rows of `rows` whose ENSG is among `ensgs`. */
  function CountIn(rows: seq<EnsgRow>, ensgs: seq<string>): nat
  {
    if ensgs == [] then 0 else |RowsOf(rows, ensgs[0])| + CountIn(rows, ensgs[1..])
  }

  lemma {:induction false} WithGeneRowsLength(rows: seq<EnsgRow>, ensgs: seq<string>)
    requires forall g :: g in ensgs ==> g in Ensgs(rows)
    ensures |WithGeneRows(rows, ensgs)| == CountIn(rows, ensgs) + |ensgs|
  {
    if ensgs != [] {
      WithGeneRowsCons(rows, ensgs);
      WithGeneRowsLength(rows, ensgs[1..]);
      assert ensgs[0] in Ensgs(rows);
      var i :| 0 <= i < |rows| && Ensgs(rows)[i] == ensgs[0];
      RowsOfHas(rows, i);
      InsertGeneRowSpans(RowsOf(rows, ensgs[0]));
    }
  }

  /** Over distinct ENSGs that cover every row, each row is counted once. */
  lemma {:induction false} CountInAll(rows: seq<EnsgRow>, ensgs: seq<string>)
    requires forall i, j :: 0 <= i < j < |ensgs| ==> ensgs[i] != ensgs[j]
    requires forall i :: 0 <= i < |rows| ==> rows[i].ensg in ensgs
    ensures CountIn(rows, ensgs) == |rows|
  {
    if rows != [] {
      var n := |rows| - 1;
      var init := rows[..n];
      assert forall i :: 0 <= i < n ==> init[i] == rows[i];
      CountInAll(init, ensgs);
      CountInSnoc(init, rows[n], ensgs);
      assert init + [rows[n]] == rows;
    } else {
      CountInNone(ensgs);
    }
  }

  lemma {:induction false} CountInNone(ensgs: seq<string>)
    ensures CountIn([], ensgs) == 0
  {
    if ensgs != [] {
      CountInNone(ensgs[1..]);
    }
  }

  /** One more row adds one to the count when its ENSG is listed (once), and nothing otherwise. */
  lemma {:induction false} CountInSnoc(rows: seq<EnsgRow>, row: EnsgRow, ensgs: seq<string>)
    requires forall i, j :: 0 <= i < j < |ensgs| ==> ensgs[i] != ensgs[j]
    ensures CountIn(rows + [row], ensgs) == CountIn(rows, ensgs) + (if row.ensg in ensgs then 1 else 0)
  {
    if ensgs != [] {
      var more := rows + [row];
      assert more[..|more| - 1] == rows;
      assert forall i, j :: 0 <= i < j < |ensgs[1..]| ==> ensgs[1..][i] != ensgs[1..][j] by {
        forall i, j | 0 <= i < j < |ensgs[1..]| ensures ensgs[1..][i] != ensgs[1..][j] {
          assert ensgs[1..][i] == ensgs[i + 1] && ensgs[1..][j] == ensgs[j + 1];
        }
      }
      CountInSnoc(rows, row, ensgs[1..]);
      assert row.ensg in ensgs <==> row.ensg == ensgs[0] || row.ensg in ensgs[1..];
      forall k | 0 <= k < |ensgs[1..]| ensures ensgs[1..][k] != ensgs[0] {
        assert ensgs[1..][k] == ensgs[k + 1];
      }
    }
  }

  /** The output table has every input row once plus one gene row per distinct ENSG. */
  lemma GeneRowTableLength(rows: seq<EnsgRow>)
    ensures |GeneRowTable(rows)| == |rows| + |SortedSet(Ensgs(rows))|
  {
    var ensgs := SortedSet(Ensgs(rows));
    WithGeneRowsLength(rows, ensgs);
    forall i, j | 0 <= i < j < |ensgs| ensures ensgs[i] != ensgs[j] {
      LexLessIrreflexive(ensgs[i]);
    }
    forall i | 0 <= i < |rows| ensures rows[i].ensg in ensgs {
      assert Ensgs(rows)[i] == rows[i].ensg;
    }
    CountInAll(rows, ensgs);
  }

  /** A listed ENSG of the table has a non-empty group. */
  lemma RowsOfListed(rows: seq<EnsgRow>, g: string)
    requires g in Ensgs(rows)
    ensures |RowsOf(rows, g)| > 0
  {
    var i :| 0 <= i < |rows| && Ensgs(rows)[i] == g;
    RowsOfHas(rows, i);
  }

  /** The rows of an ENSG are exactly the table's rows with that ENSG, each
      as often as in the table. */
  lemma {:induction false} RowsOfExactly(rows: seq<EnsgRow>, g: string, r: EnsgRow)
    ensures multiset(RowsOf(rows, g))[r] == (if r.ensg == g then multiset(rows)[r] else 0)
  {
    if rows != [] {
      var n := |rows| - 1;
      RowsOfExactly(rows[..n], g, r);
      assert rows == rows[..n] + [rows[n]];
    }
  }

  /** Over ENSGs that all have rows, the blocks hold the rows and one gene row each. */
  lemma {:induction false} GeneBlocksLength(rows: seq<EnsgRow>, ensgs: seq<string>)
    requires forall g :: g in ensgs ==> g in Ensgs(rows)
    ensures TotalLength(ensgs, GeneBlocks(rows)) == CountIn(rows, ensgs) + |ensgs|
  {
    if ensgs != [] {
      assert forall g :: g in ensgs[1..] ==> g in ensgs;
      GeneBlocksLength(rows, ensgs[1..]);
      RowsOfListed(rows, ensgs[0]);
      InsertGeneRowSpans(RowsOf(rows, ensgs[0]));
    }
  }

  /** The block of the `k`-th listed ENSG starts after the `k` earlier blocks
      with that ENSG's gene row, and fits in the table. */
  lemma WithGeneRowsBlockStart(rows: seq<EnsgRow>, ensgs: seq<string>, k: nat)
    requires forall g :: g in ensgs ==> g in Ensgs(rows)
    requires k < |ensgs|
    ensures |RowsOf(rows, ensgs[k])| > 0
    ensures var off := CountIn(rows, ensgs[..k]) + k;
            && off + |RowsOf(rows, ensgs[k])| < |WithGeneRows(rows, ensgs)|
            && WithGeneRows(rows, ensgs)[off] == GeneRow(RowsOf(rows, ensgs[k]))
  {
    var blocks := GeneBlocks(rows);
    var group := RowsOf(rows, ensgs[k]);
    RowsOfListed(rows, ensgs[k]);
    assert forall g :: g in ensgs[..k] ==> g in ensgs;
    GeneBlocksLength(rows, ensgs[..k]);
    var block := blocks(ensgs[k]);
    assert block == [GeneRow(group)] + Records(group);
    ConcatMapAt(ensgs, blocks, k, 0);
    ConcatMapAt(ensgs, blocks, k, |group|);
  }

  /** Inside that block, the gene row is followed by the ENSG's rows in table order. */
  lemma WithGeneRowsBlockMember(rows: seq<EnsgRow>, ensgs: seq<string>, k: nat, i: nat)
    requires forall g :: g in ensgs ==> g in Ensgs(rows)
    requires k < |ensgs| && i < |RowsOf(rows, ensgs[k])|
    ensures var off := CountIn(rows, ensgs[..k]) + k;
            && off + 1 + i < |WithGeneRows(rows, ensgs)|
            && WithGeneRows(rows, ensgs)[off + 1 + i] == RowsOf(rows, ensgs[k])[i].record
  {
    var blocks := GeneBlocks(rows);
    var group := RowsOf(rows, ensgs[k]);
    assert forall g :: g in ensgs[..k] ==> g in ensgs;
    GeneBlocksLength(rows, ensgs[..k]);
    var block := blocks(ensgs[k]);
    assert block == [GeneRow(group)] + Records(group);
    assert block[1 + i] == group[i].record;
    ConcatMapAt(ensgs, blocks, k, 1 + i);
    var table := WithGeneRows(rows, ensgs);
    var j := TotalLength(ensgs[..k], blocks) + (1 + i);
    assert table[j] == group[i].record;
    var off := CountIn(rows, ensgs[..k]) + k;
    assert j == off + 1 + i;
  }

  /** The gene rows `WithGeneRows` inserts, in order. */
  function GeneRowsFor(rows: seq<EnsgRow>, ensgs: seq<string>): seq<GtfRecord>
  {
    if ensgs == [] then []
    else
      var group := RowsOf(rows, ensgs[0]);
      (if group == [] then [] else [GeneRow(group)]) + GeneRowsFor(rows, ensgs[1..])
  }

  /** With every listed ENSG present, the `k`-th gene row is the `gene` row
      spanning the `k`-th ENSG's group and naming that ENSG. */
  lemma {:induction false} GeneRowsForAt(rows: seq<EnsgRow>, ensgs: seq<string>, k: nat)
    requires forall g :: g in ensgs ==> g in Ensgs(rows)
    requires k < |ensgs|
    ensures |GeneRowsFor(rows, ensgs)| == |ensgs|
    ensures |RowsOf(rows, ensgs[k])| > 0
    ensures GeneRowsFor(rows, ensgs)[k] == GeneRow(RowsOf(rows, ensgs[k]))
    ensures GeneRowsFor(rows, ensgs)[k].feature == "gene"
    ensures GeneRowsFor(rows, ensgs)[k].attribute == "gene_id \"" + ensgs[k] + "\";"
  {
    RowsOfListed(rows, ensgs[0]);
    assert forall g :: g in ensgs[1..] ==> g in ensgs;
    if k == 0 {
      if |ensgs| > 1 {
        GeneRowsForAt(rows, ensgs[1..], 0);
      }
    } else {
      GeneRowsForAt(rows, ensgs[1..], k - 1);
      assert ensgs[1..][k - 1] == ensgs[k];
    }
  }

  /** The records of the rows of the listed ENSGs, group by group. */
  function RecordsIn(rows: seq<EnsgRow>, ensgs: seq<string>): multiset<GtfRecord>
  {
    if ensgs == [] then multiset{} else multiset(Records(RowsOf(rows, ensgs[0]))) + RecordsIn(rows, ensgs[1..])
  }

  /** The table with gene rows holds the listed groups' records and the gene rows, and nothing else. */
  lemma {:induction false} WithGeneRowsMultiset(rows: seq<EnsgRow>, ensgs: seq<string>)
    ensures multiset(WithGeneRows(rows, ensgs)) == RecordsIn(rows, ensgs) + multiset(GeneRowsFor(rows, ensgs))
  {
    if ensgs != [] {
      WithGeneRowsCons(rows, ensgs);
      WithGeneRowsMultiset(rows, ensgs[1..]);
      var group := RowsOf(rows, ensgs[0]);
      if group != [] {
        assert multiset(InsertGeneRow(group)) == multiset{GeneRow(group)} + multiset(Records(group));
      }
    }
  }

  lemma RecordsSnoc(rows: seq<EnsgRow>, row: EnsgRow)
    ensures Records(rows + [row]) == Records(rows) + [row.record]
  {
  }

  lemma {:induction false} RecordsInNone(ensgs: seq<string>)
    ensures RecordsIn([], ensgs) == multiset{}
  {
    if ensgs != [] {
      RecordsInNone(ensgs[1..]);
    }
  }

  /** No ENSG is listed twice. */
  predicate DistinctEnsgs(ensgs: seq<string>)
  {
    forall i, j :: 0 <= i < j < |ensgs| ==> ensgs[i] != ensgs[j]
  }

  lemma DistinctEnsgsTail(ensgs: seq<string>)
    requires ensgs != [] && DistinctEnsgs(ensgs)
    ensures DistinctEnsgs(ensgs[1..]) && ensgs[0] !in ensgs[1..]
  {
    forall i, j | 0 <= i < j < |ensgs[1..]| ensures ensgs[1..][i] != ensgs[1..][j] {
      assert ensgs[1..][i] == ensgs[i + 1] && ensgs[1..][j] == ensgs[j + 1];
    }
    forall k | 0 <= k < |ensgs[1..]| ensures ensgs[1..][k] != ensgs[0] {
      assert ensgs[1..][k] == ensgs[k + 1];
    }
  }

  /** One more row adds its record once when its ENSG is listed (once), and nothing otherwise. */
  lemma {:induction false} RecordsInSnoc(rows: seq<EnsgRow>, row: EnsgRow, ensgs: seq<string>)
    requires DistinctEnsgs(ensgs)
    ensures RecordsIn(rows + [row], ensgs) ==
              RecordsIn(rows, ensgs) + (if row.ensg in ensgs then multiset{row.record} else multiset{})
  {
    if ensgs != [] {
      var e := ensgs[0];
      var more := rows + [row];
      DistinctEnsgsTail(ensgs);
      RecordsInSnoc(rows, row, ensgs[1..]);
      GroupRecordsSnoc(rows, row, e);
      var a := multiset(Records(RowsOf(rows, e)));
      var b := RecordsIn(rows, ensgs[1..]);
      assert RecordsIn(rows, ensgs) == a + b;
      if row.ensg == e {
        assert RecordsIn(more, ensgs) == (a + multiset{row.record}) + b;
      } else {
        assert row.ensg in ensgs <==> row.ensg in ensgs[1..];
        assert RecordsIn(more, ensgs) == a + (b + (if row.ensg in ensgs[1..] then multiset{row.record} else multiset{}));
      }
    }
  }

  /** One more row adds its record to its own group's records only. */
  lemma GroupRecordsSnoc(rows: seq<EnsgRow>, row: EnsgRow, g: string)
    ensures multiset(Records(RowsOf(rows + [row], g))) ==
              multiset(Records(RowsOf(rows, g))) + (if row.ensg == g then multiset{row.record} else multiset{})
  {
    var more := rows + [row];
    assert more[..|more| - 1] == rows;
    if row.ensg == g {
      RecordsSnoc(RowsOf(rows, g), row);
    } else {
      assert RowsOf(more, g) == RowsOf(rows, g) + [];
      assert RowsOf(more, g) == RowsOf(rows, g);
    }
  }

  /** Over distinct ENSGs that cover every row, the groups' records are the table's records. */
  lemma {:induction false} RecordsInAll(rows: seq<EnsgRow>, ensgs: seq<string>)
    requires DistinctEnsgs(ensgs)
    requires forall i :: 0 <= i < |rows| ==> rows[i].ensg in ensgs
    ensures RecordsIn(rows, ensgs) == multiset(Records(rows))
  {
    if rows != [] {
      var n := |rows| - 1;
      var init := rows[..n];
      assert forall i :: 0 <= i < n ==> init[i] == rows[i];
      RecordsInAll(init, ensgs);
      RecordsInSnoc(init, rows[n], ensgs);
      assert init + [rows[n]] == rows;
      RecordsSnoc(init, rows[n]);
    } else {
      RecordsInNone(ensgs);
    }
  }

  /** The distinct ENSGs in increasing order are distinct and cover every row. */
  lemma SortedEnsgsCover(rows: seq<EnsgRow>)
    ensures var ensgs := SortedSet(Ensgs(rows));
            && (forall i, j :: 0 <= i < j < |ensgs| ==> ensgs[i] != ensgs[j])
            && (forall i :: 0 <= i < |rows| ==> rows[i].ensg in ensgs)
  {
    var ensgs := SortedSet(Ensgs(rows));
    forall i, j | 0 <= i < j < |ensgs| ensures ensgs[i] != ensgs[j] {
      LexLessIrreflexive(ensgs[i]);
    }
    forall i | 0 <= i < |rows| ensures rows[i].ensg in ensgs {
      assert Ensgs(rows)[i] == rows[i].ensg;
    }
  }

  /** The output table holds exactly the input rows' records plus one gene
      row per distinct ENSG. */
  lemma GeneRowTableMultiset(rows: seq<EnsgRow>)
    ensures multiset(GeneRowTable(rows)) ==
              multiset(Records(rows)) + multiset(GeneRowsFor(rows, SortedSet(Ensgs(rows))))
  {
    var ensgs := SortedSet(Ensgs(rows));
    WithGeneRowsMultiset(rows, ensgs);
    SortedEnsgsCover(rows);
    RecordsInAll(rows, ensgs);
  }

  /** The output table is one block per distinct ENSG, in increasing ENSG
      order: the first block starts the table, and the `k`-th block starts
      with the `gene` row naming its ENSG and spanning its rows. */
  lemma GeneRowTableBlockStart(rows: seq<EnsgRow>, k: nat)
    requires k < |SortedSet(Ensgs(rows))|
    ensures var ensgs := SortedSet(Ensgs(rows));
            var group := RowsOf(rows, ensgs[k]);
            var off := CountIn(rows, ensgs[..k]) + k;
            && |group| > 0
            && (k == 0 ==> off == 0)
            && off + |group| < |GeneRowTable(rows)|
            && GeneRowTable(rows)[off] == GeneRow(group)
            && GeneRow(group).feature == "gene"
            && GeneRow(group).attribute == "gene_id \"" + ensgs[k] + "\";"
  {
    var ensgs := SortedSet(Ensgs(rows));
    var group := RowsOf(rows, ensgs[k]);
    WithGeneRowsBlockStart(rows, ensgs, k);
    assert group[0].ensg == ensgs[k];
    if k == 0 {
      assert ensgs[..0] == [];
    }
  }

  /** The next block starts right after the `k`-th ENSG's rows, and the last
      block ends the table. */
  lemma GeneRowTableBlockNext(rows: seq<EnsgRow>, k: nat)
    requires k < |SortedSet(Ensgs(rows))|
    ensures var ensgs := SortedSet(Ensgs(rows));
            var off := CountIn(rows, ensgs[..k]) + k;
            var next := off + 1 + |RowsOf(rows, ensgs[k])|;
            && next == CountIn(rows, ensgs[..k + 1]) + (k + 1)
            && (k + 1 == |ensgs| ==> next == |GeneRowTable(rows)|)
  {
    var ensgs := SortedSet(Ensgs(rows));
    CountInSnocEnsg(rows, ensgs[..k], ensgs[k]);
    PrefixSnoc(ensgs, k);
    if k + 1 == |ensgs| {
      GeneRowTableLength(rows);
      SortedEnsgsCover(rows);
      CountInAll(rows, ensgs);
      assert ensgs[..k + 1] == ensgs;
    }
  }

  lemma PrefixSnoc<T>(xs: seq<T>, k: nat)
    requires k < |xs|
    ensures xs[..k + 1] == xs[..k] + [xs[k]]
  {
  }

  /** After its gene row, the `k`-th block holds that ENSG's rows, in input order. */
  lemma GeneRowTableBlockMember(rows: seq<EnsgRow>, k: nat, i: nat)
    requires k < |SortedSet(Ensgs(rows))| && i < |RowsOf(rows, SortedSet(Ensgs(rows))[k])|
    ensures var ensgs := SortedSet(Ensgs(rows));
            var off := CountIn(rows, ensgs[..k]) + k;
            && off + 1 + i < |GeneRowTable(rows)|
            && GeneRowTable(rows)[off + 1 + i] == RowsOf(rows, ensgs[k])[i].record
  {
    WithGeneRowsBlockMember(rows, SortedSet(Ensgs(rows)), k, i);
  }

  /** Listing one more ENSG adds its group's size. */
  lemma {:induction false} CountInSnocEnsg(rows: seq<EnsgRow>, ensgs: seq<string>, g: string)
    ensures CountIn(rows, ensgs + [g]) == CountIn(rows, ensgs) + |RowsOf(rows, g)|
  {
    if ensgs == [] {
      assert [] + [g] == [g];
      assert [g][1..] == [];
    } else {
      assert (ensgs + [g])[1..] == ensgs[1..] + [g];
      CountInSnocEnsg(rows, ensgs[1..], g);
    }
  }
}
