/** The ORF refinement step of the long-read proteogenomics pipeline: isoforms
    whose predicted ORFs encode the same protein are collapsed into one protein
    database entry named by a merged, numerically ordered accession, and the
    isoforms' full-length read counts (FL) and CPM are summed onto it. */
module RefineOrf {
  import opened Wrappers
  import opened Text
  import opened Collections

  /** One record of the transcript FASTA as Biopython's SeqIO yields it: the
      identifier (the header up to its first white space) and the sequence. */
  datatype FastaRecord = FastaRecord(id: string, sequence: string)

  /** One row of the ORF table. FL and CPM are the numeric column values, kept
      as reals so that one summation serves both. */
  datatype OrfRow = OrfRow(
    pbAcc: string,
    orfStart: int,
    orfEnd: int,
    orfLen: int,
    codingScore: real,
    orfScore: real,
    hasStopCodon: bool,
    orfCallingConfidence: string,
    upstreamAtgs: string,
    gene: string,
    fl: real,
    cpm: real)

  // ---------------------------------------------------------------------------
  // Sequence map: get_accession_seqs
  // ---------------------------------------------------------------------------

  /** The accession of a FASTA record: its identifier up to the first `|`. */
  function AccessionOf(record: FastaRecord): string
  {
    Split(record.id, "|")[0]
  }

  /** The accession of each record, in file order. */
  function Accessions(records: seq<FastaRecord>): (accs: seq<string>)
    ensures |accs| == |records|
    ensures forall i :: 0 <= i < |records| ==> accs[i] == AccessionOf(records[i])
  {
    if records == [] then []
    else Accessions(records[..|records| - 1]) + [AccessionOf(records[|records| - 1])]
  }

  /** An accession never contains the `|` it was cut at. */
  lemma AccessionHasNoBar(record: FastaRecord)
    ensures '|' !in AccessionOf(record)
  {
    SplitPiecesFree(record.id, "|");
    ContainsChar(AccessionOf(record), '|');
  }

  /** The accessions reported as redundant: every one that an earlier record already had, in record order. */
  function LaterDuplicates(accs: seq<string>): seq<string>
  {
    if accs == [] then []
    else
      var init := accs[..|accs| - 1];
      LaterDuplicates(init) + (if accs[|accs| - 1] in init then [accs[|accs| - 1]] else [])
  }

  /** Exactly one redundancy report per record beyond the first of each accession. */
  lemma {:induction false} LaterDuplicatesCount(accs: seq<string>)
    ensures |LaterDuplicates(accs)| == |accs| - |set a | a in accs|
  {
    if accs != [] {
      var init := accs[..|accs| - 1];
      var last := accs[|accs| - 1];
      LaterDuplicatesCount(init);
      assert accs == init + [last];
      assert (set a | a in accs) == (set a | a in init) + {last};
      if last !in init {
        assert last !in (set a | a in init);
      } else {
        assert (set a | a in accs) == (set a | a in init);
      }
    }
  }

  /** The accession -> sequence map after reading `records`: an accession met
      again keeps the sequence it was first given. */
  function FirstSeqs(records: seq<FastaRecord>): (m: map<string, string>)
    ensures forall a :: a in m <==> a in Accessions(records)
  {
    if records == [] then map[]
    else
      var m := FirstSeqs(records[..|records| - 1]);
      var last := records[|records| - 1];
      if AccessionOf(last) in m then m else m[AccessionOf(last) := last.sequence]
  }

  /** The sequence stored for an accession is the one of its first record, and
      no stored accession contains `|`. */
  lemma {:induction false} FirstSeqsFirstWins(records: seq<FastaRecord>, i: nat)
    requires i < |records| && AccessionOf(records[i]) !in Accessions(records[..i])
    ensures AccessionOf(records[i]) in FirstSeqs(records)
    ensures FirstSeqs(records)[AccessionOf(records[i])] == records[i].sequence
  {
    var n := |records| - 1;
    var init := records[..n];
    FirstSeqsStep(records);
    if i < n {
      assert init[..i] == records[..i];
      assert init[i] == records[i];
      FirstSeqsFirstWins(init, i);
      var a, b := AccessionOf(records[i]), AccessionOf(records[n]);
      if a == b {
        assert b in FirstSeqs(init);
      }
    } else {
      assert init == records[..i];
    }
  }

  /** One more record: its accession is added only when it is new. */
  lemma FirstSeqsStep(records: seq<FastaRecord>)
    requires |records| > 0
    ensures var m := FirstSeqs(records[..|records| - 1]);
            var last := records[|records| - 1];
            FirstSeqs(records) == if AccessionOf(last) in m then m else m[AccessionOf(last) := last.sequence]
  {
  }

  /** Reads the transcript FASTA into accession -> sequence. The first record of
      an accession supplies its sequence; each later one is only reported as redundant. */
  method GetAccessionSeqs(records: seq<FastaRecord>) returns (pbSeqs: map<string, string>, redundant: seq<string>)
    ensures pbSeqs == FirstSeqs(records)
    ensures forall a :: a in pbSeqs ==> '|' !in a
    ensures redundant == LaterDuplicates(Accessions(records))
    ensures |redundant| == |records| - |pbSeqs|
  {
    pbSeqs, redundant := map[], [];
    for i := 0 to |records|
      invariant pbSeqs == FirstSeqs(records[..i])
      invariant forall a :: a in pbSeqs ==> '|' !in a
      invariant redundant == LaterDuplicates(Accessions(records[..i]))
    {
      var acc := AccessionOf(records[i]);
      AccessionHasNoBar(records[i]);
      assert records[..i + 1][..i] == records[..i];
      ghost var accs := Accessions(records[..i + 1]);
      assert accs[..|accs| - 1] == Accessions(records[..i]);
      if acc in pbSeqs {
        redundant := redundant + [acc];
      } else {
        pbSeqs := pbSeqs[acc := records[i].sequence];
      }
    }
    assert records[..|records|] == records;
    LaterDuplicatesCount(Accessions(records));
    assert (set a | a in Accessions(records)) == pbSeqs.Keys;
  }

  // ---------------------------------------------------------------------------
  // Admission filter: filter_orf_scores and the has_stop_codon query
  // ---------------------------------------------------------------------------

  /** `orfs[orfs['coding_score'] >= cutoff]`. */
  function FilterOrfScores(orfs: seq<OrfRow>, cutoff: real): seq<OrfRow>
  {
    if orfs == [] then []
    else
      var last := orfs[|orfs| - 1];
      FilterOrfScores(orfs[..|orfs| - 1], cutoff) + (if last.codingScore >= cutoff then [last] else [])
  }

  /** `orfs.query('has_stop_codon')`. */
  function WithStopCodon(orfs: seq<OrfRow>): seq<OrfRow>
  {
    if orfs == [] then []
    else
      var last := orfs[|orfs| - 1];
      WithStopCodon(orfs[..|orfs| - 1]) + (if last.hasStopCodon then [last] else [])
  }

  /** The rows the refinement works on: the score filter, then the stop-codon query. */
  function Admit(orfs: seq<OrfRow>, cutoff: real): seq<OrfRow>
  {
    WithStopCodon(FilterOrfScores(orfs, cutoff))
  }

  /** A row passes admission when both tests hold. */
  predicate Admissible(row: OrfRow, cutoff: real)
  {
    row.codingScore >= cutoff && row.hasStopCodon
  }

  /** The rows of `orfs` that pass both tests, unaltered and in table order. */
  function AdmissibleRows(orfs: seq<OrfRow>, cutoff: real): seq<OrfRow>
  {
    if orfs == [] then []
    else
      var last := orfs[|orfs| - 1];
      AdmissibleRows(orfs[..|orfs| - 1], cutoff) + (if Admissible(last, cutoff) then [last] else [])
  }

  lemma WithStopCodonAppend(a: seq<OrfRow>, b: seq<OrfRow>)
    ensures WithStopCodon(a + b) == WithStopCodon(a) + WithStopCodon(b)
    decreases |b|
  {
    if b != [] {
      assert (a + b)[..|a + b| - 1] == a + b[..|b| - 1];
      WithStopCodonAppend(a, b[..|b| - 1]);
    } else {
      assert a + b == a;
    }
  }

  /** Filtering by score and then by stop codon keeps exactly the rows that pass
      both tests, in their table order. */
  lemma {:induction false} AdmitKeepsAdmissible(orfs: seq<OrfRow>, cutoff: real)
    ensures Admit(orfs, cutoff) == AdmissibleRows(orfs, cutoff)
  {
    if orfs != [] {
      var init := orfs[..|orfs| - 1];
      var last := orfs[|orfs| - 1];
      AdmitKeepsAdmissible(init, cutoff);
      var kept := if last.codingScore >= cutoff then [last] else [];
      WithStopCodonAppend(FilterOrfScores(init, cutoff), kept);
      if last.codingScore >= cutoff {
        assert WithStopCodon(kept) == WithStopCodon([] + [last]);
        assert [last][..0] == [];
      }
    }
  }

  /** A row is kept exactly when it is a row of the table that passes both tests. */
  lemma {:induction false} AdmissibleRowsMembers(orfs: seq<OrfRow>, cutoff: real)
    ensures forall row :: row in AdmissibleRows(orfs, cutoff) <==> row in orfs && Admissible(row, cutoff)
    ensures |AdmissibleRows(orfs, cutoff)| <= |orfs|
  {
    if orfs != [] {
      var init := orfs[..|orfs| - 1];
      AdmissibleRowsMembers(init, cutoff);
      assert orfs == init + [orfs[|orfs| - 1]];
    }
  }

  // ---------------------------------------------------------------------------
  // Grouping: combine_by_sequence
  // ---------------------------------------------------------------------------

  /** The ORF's nucleotides, `seq[start-1:end]` with Python's slice semantics;
      for 1-based inclusive coordinates inside the sequence this is exactly the ORF. */
  function OrfNucleotides(sequence: string, row: OrfRow): (orf: string)
    ensures 1 <= row.orfStart <= row.orfEnd <= |sequence| ==>
              orf == sequence[row.orfStart - 1..row.orfEnd] && |orf| == row.orfEnd - row.orfStart + 1
    ensures |orf| <= |sequence|
  {
    Slice(sequence, row.orfStart - 1, row.orfEnd)
  }

  /** Every row's accession has a transcript sequence. */
  predicate AllSequenced(rows: seq<OrfRow>, pbSeqs: map<string, string>)
  {
    forall i :: 0 <= i < |rows| ==> rows[i].pbAcc in pbSeqs
  }

  /** The protein a row encodes: its ORF translated up to the first stop codon
      (`translate` stands for Biopython's `translate(orf, to_stop=True)`). */
  function Protein(row: OrfRow, pbSeqs: map<string, string>, translate: string -> string): string
    requires row.pbAcc in pbSeqs
  {
    translate(OrfNucleotides(pbSeqs[row.pbAcc], row))
  }

  function Proteins(rows: seq<OrfRow>, pbSeqs: map<string, string>, translate: string -> string): seq<string>
    requires AllSequenced(rows, pbSeqs)
  {
    seq(|rows|, i requires 0 <= i < |rows| => Protein(rows[i], pbSeqs, translate))
  }

  /** The accessions of the rows whose protein is `p`, in row order. */
  function Collapsed(rows: seq<OrfRow>, pbSeqs: map<string, string>, translate: string -> string, p: string): seq<string>
    requires AllSequenced(rows, pbSeqs)
  {
    if rows == [] then []
    else
      var last := rows[|rows| - 1];
      Collapsed(rows[..|rows| - 1], pbSeqs, translate, p)
        + (if Protein(last, pbSeqs, translate) == p then [last.pbAcc] else [])
  }

  /** An accession is in the group of `p` exactly when one of its rows encodes `p`;
      so group membership does not depend on the order of the rows. */
  lemma {:induction false} CollapsedMembers(rows: seq<OrfRow>, pbSeqs: map<string, string>, translate: string -> string, p: string)
    requires AllSequenced(rows, pbSeqs)
    ensures forall a :: a in Collapsed(rows, pbSeqs, translate, p) <==>
              exists i :: 0 <= i < |rows| && rows[i].pbAcc == a && Protein(rows[i], pbSeqs, translate) == p
  {
    if rows != [] {
      var init := rows[..|rows| - 1];
      CollapsedMembers(init, pbSeqs, translate, p);
      forall a ensures a in Collapsed(rows, pbSeqs, translate, p) ==>
                 exists i :: 0 <= i < |rows| && rows[i].pbAcc == a && Protein(rows[i], pbSeqs, translate) == p
      {
        if a in Collapsed(init, pbSeqs, translate, p) {
          var i :| 0 <= i < |init| && init[i].pbAcc == a && Protein(init[i], pbSeqs, translate) == p;
          assert rows[i] == init[i];
        }
      }
      forall a, i | 0 <= i < |rows| && rows[i].pbAcc == a && Protein(rows[i], pbSeqs, translate) == p
        ensures a in Collapsed(rows, pbSeqs, translate, p)
      {
        if i < |init| {
          assert init[i] == rows[i];
        }
      }
    }
  }

  /** The dictionary `pb_pseqs`: protein -> accessions, with its key order. */
  datatype ProteinGroups = ProteinGroups(order: seq<string>, members: map<string, seq<string>>)

  /** The keys are listed once each, and the listed keys are the dictionary's keys. */
  ghost predicate WellFormed(groups: ProteinGroups)
  {
    && (forall i, j :: 0 <= i < j < |groups.order| ==> groups.order[i] != groups.order[j])
    && forall p :: p in groups.order <==> p in groups.members
  }

  /** The total length of the groups listed in `order`. */
  function GroupSizes(order: seq<string>, members: map<string, seq<string>>): nat
  {
    if order == [] then 0
    else
      var last := order[|order| - 1];
      GroupSizes(order[..|order| - 1], members) + (if last in members then |members[last]| else 0)
  }

  /** Changing the group of a key that `order` does not list leaves the total unchanged. */
  lemma {:induction false} GroupSizesOther(order: seq<string>, members: map<string, seq<string>>, p: string, v: seq<string>)
    requires p !in order
    ensures GroupSizes(order, members[p := v]) == GroupSizes(order, members)
  {
    if order != [] {
      GroupSizesOther(order[..|order| - 1], members, p, v);
    }
  }

  /** Appending one accession to a listed group adds one to the total. */
  lemma {:induction false} GroupSizesGrow(order: seq<string>, members: map<string, seq<string>>, p: string, a: string)
    requires p in order && p in members
    requires forall i, j :: 0 <= i < j < |order| ==> order[i] != order[j]
    ensures GroupSizes(order, members[p := members[p] + [a]]) == GroupSizes(order, members) + 1
  {
    var init := order[..|order| - 1];
    var last := order[|order| - 1];
    if last == p {
      assert order == init + [last];
      assert p !in init;
      GroupSizesOther(init, members, p, members[p] + [a]);
    } else {
      assert p in init;
      GroupSizesGrow(init, members, p, a);
    }
  }

  /** The dictionary `pb_pseqs` after appending each row's accession under its protein. */
  function GroupRows(rows: seq<OrfRow>, pbSeqs: map<string, string>, translate: string -> string): ProteinGroups
    requires AllSequenced(rows, pbSeqs)
  {
    if rows == [] then ProteinGroups([], map[])
    else
      var init := rows[..|rows| - 1];
      var last := rows[|rows| - 1];
      var g := GroupRows(init, pbSeqs, translate);
      var p := Protein(last, pbSeqs, translate);
      if p in g.members then ProteinGroups(g.order, g.members[p := g.members[p] + [last.pbAcc]])
      else ProteinGroups(g.order + [p], g.members[p := [last.pbAcc]])
  }

  /** The grouping lists each protein once, in the order of the rows that first
      encode it, and lists exactly the proteins it has groups for. */
  lemma {:induction false} GroupRowsOrder(rows: seq<OrfRow>, pbSeqs: map<string, string>, translate: string -> string)
    requires AllSequenced(rows, pbSeqs)
    ensures WellFormed(GroupRows(rows, pbSeqs, translate))
    ensures GroupRows(rows, pbSeqs, translate).order == FirstAppearance(Proteins(rows, pbSeqs, translate))
  {
    if rows != [] {
      var init := rows[..|rows| - 1];
      assert AllSequenced(init, pbSeqs);
      GroupRowsOrder(init, pbSeqs, translate);
      var g := GroupRows(init, pbSeqs, translate);
      var ps := Proteins(rows, pbSeqs, translate);
      assert ps[..|ps| - 1] == Proteins(init, pbSeqs, translate);
      if Protein(rows[|rows| - 1], pbSeqs, translate) !in g.members {
        assert (g.order + [Protein(rows[|rows| - 1], pbSeqs, translate)])[..|g.order|] == g.order;
      }
    }
  }

  /** Each protein's group holds the accessions of exactly the rows encoding it,
      in row order, and a protein no row encodes has no group. */
  lemma {:induction false} GroupRowsMembers(rows: seq<OrfRow>, pbSeqs: map<string, string>, translate: string -> string)
    requires AllSequenced(rows, pbSeqs)
    ensures forall p :: Collapsed(rows, pbSeqs, translate, p) ==
              var m := GroupRows(rows, pbSeqs, translate).members; if p in m then m[p] else []
  {
    if rows != [] {
      var init := rows[..|rows| - 1];
      assert AllSequenced(init, pbSeqs);
      GroupRowsMembers(init, pbSeqs, translate);
    }
  }

  /** Every row lands in exactly one group: the group sizes add up to the row count. */
  lemma {:induction false} GroupRowsSizes(rows: seq<OrfRow>, pbSeqs: map<string, string>, translate: string -> string)
    requires AllSequenced(rows, pbSeqs)
    ensures GroupSizes(GroupRows(rows, pbSeqs, translate).order, GroupRows(rows, pbSeqs, translate).members) == |rows|
  {
    if rows != [] {
      var init := rows[..|rows| - 1];
      var last := rows[|rows| - 1];
      assert AllSequenced(init, pbSeqs);
      GroupRowsSizes(init, pbSeqs, translate);
      GroupRowsOrder(init, pbSeqs, translate);
      var g := GroupRows(init, pbSeqs, translate);
      var p := Protein(last, pbSeqs, translate);
      if p in g.members {
        GroupSizesGrow(g.order, g.members, p, last.pbAcc);
      } else {
        GroupSizesOther(g.order, g.members, p, [last.pbAcc]);
        assert (g.order + [p])[..|g.order|] == g.order;
      }
    }
  }

  /** Python's loop `pb_pseqs[prot_seq].append(pb_acc)` over the admitted rows.
      A row whose accession has no sequence raises KeyError for that accession. */
  method CombineBySequence(rows: seq<OrfRow>, pbSeqs: map<string, string>, translate: string -> string)
    returns (r: Result<ProteinGroups>)
    ensures r.Ok? <==> AllSequenced(rows, pbSeqs)
    ensures r.Err? ==> exists k :: 0 <= k < |rows| && rows[k].pbAcc !in pbSeqs
                          && AllSequenced(rows[..k], pbSeqs) && r.error == KeyError(rows[k].pbAcc)
    ensures r.Ok? ==> AllSequenced(rows, pbSeqs) && r.value == GroupRows(rows, pbSeqs, translate)
  {
    var order: seq<string> := [];
    var members: map<string, seq<string>> := map[];
    var i := 0;
    while i < |rows|
      invariant 0 <= i <= |rows|
      invariant AllSequenced(rows[..i], pbSeqs)
      invariant ProteinGroups(order, members) == GroupRows(rows[..i], pbSeqs, translate)
    {
      var acc := rows[i].pbAcc;
      if acc !in pbSeqs {
        return Err(KeyError(acc));
      }
      var prot := translate(OrfNucleotides(pbSeqs[acc], rows[i]));
      assert rows[..i + 1][..i] == rows[..i];
      if prot in members {
        members := members[prot := members[prot] + [acc]];
      } else {
        members := members[prot := [acc]];
        order := order + [prot];
      }
      i := i + 1;
    }
    assert rows[..i] == rows;
    r := Ok(ProteinGroups(order, members));
  }

  // ---------------------------------------------------------------------------
  // Ordering: order_enst_acc_numerically
  // ---------------------------------------------------------------------------

  /** The numeric key of an accession: it must split at `.` into exactly two
      pieces, the first from its eighth character on and the second must both be
      Python integers. None where the unpacking or an `int()` raises ValueError,
      which the source catches and answers by skipping the accession. */
  function SortKey(acc: string): Option<(int, int)>
  {
    var parts := Split(acc, ".");
    if |parts| != 2 then None
    else
      match (ParseInt(Slice(parts[0], 7, |parts[0]|)), ParseInt(parts[1]))
      case (Some(g), Some(i)) => Some((g, i))
      case _ => None
  }

  /** An Ensembl transcript accession with a version, `ENSMUST00000012345.2`
      (any seven-character prefix without a dot), yields its two numbers. */
  lemma SortKeyOfVersioned(prefix: string, gene: nat, iso: nat)
    requires |prefix| == 7 && '.' !in prefix
    ensures SortKey(prefix + NatToString(gene) + "." + NatToString(iso)) == Some((gene, iso))
  {
    var g := prefix + NatToString(gene);
    var i := NatToString(iso);
    var acc := prefix + NatToString(gene) + "." + NatToString(iso);
    assert Split(acc, ".") == [g, i] by {
      assert forall k :: 7 <= k < |g| ==> IsDigit(g[k]);
      assert forall k :: 0 <= k < |i| ==> IsDigit(i[k]);
      assert acc == g + ['.'] + i;
      SplitPair(g, i, '.');
    }
    assert Slice(g, 7, |g|) == NatToString(gene);
    ParseIntOfNat(gene);
    ParseIntOfNat(iso);
    SortKeyOf(acc, g, i, gene, iso);
  }

  /** The key of an accession with exactly two `.`-fields whose numbers read. */
  lemma SortKeyOf(acc: string, a: string, b: string, gene: int, iso: int)
    requires Split(acc, ".") == [a, b]
    requires ParseInt(Slice(a, 7, |a|)) == Some(gene) && ParseInt(b) == Some(iso)
    ensures SortKey(acc) == Some((gene, iso))
  {
  }

  /** A PacBio accession `PB.<gene>.<isoform>` has two dots, so it has no key and
      is left out of the ordering. */
  lemma SortKeyOfPacBio()
    ensures SortKey("PB.1.1") == None
  {
    FindChar("PB.1.1", '.', 2);
    assert "PB.1.1"[3..] == "1.1";
    FindChar("1.1", '.', 1);
    assert "1.1"[2..] == "1";
    FindNoChar("1", '.');
    assert |Split("PB.1.1", ".")| == 3;
  }

  /** One entry `[gene_idx, iso_idx, acc]` of the list that gets sorted. */
  datatype Keyed = Keyed(geneIdx: int, isoIdx: int, acc: string)

  function KeyOf(x: Keyed): (int, int)
  {
    (x.geneIdx, x.isoIdx)
  }

  /** Python's `<=` on pairs of integers: by the first, then by the second. */
  predicate KeyLe(a: (int, int), b: (int, int))
  {
    a.0 < b.0 || (a.0 == b.0 && a.1 <= b.1)
  }

  predicate KeySorted(xs: seq<Keyed>)
  {
    forall i, j :: 0 <= i < j < |xs| ==> KeyLe(KeyOf(xs[i]), KeyOf(xs[j]))
  }

  /** The entries the loop collects: one per accession that has a key, in input order. */
  function ParsedKeys(accs: seq<string>): seq<Keyed>
  {
    if accs == [] then []
    else
      var last := accs[|accs| - 1];
      var k := SortKey(last);
      ParsedKeys(accs[..|accs| - 1]) + (if k.Some? then [Keyed(k.value.0, k.value.1, last)] else [])
  }

  /** Inserts `x` after every entry whose key is not above its own. */
  function InsertLast(s: seq<Keyed>, x: Keyed): (r: seq<Keyed>)
    requires KeySorted(s)
    ensures KeySorted(r)
    ensures forall y :: y in r <==> y in s || y == x
    ensures |r| == |s| + 1
  {
    if s == [] then [x]
    else
      var init, last := s[..|s| - 1], s[|s| - 1];
      if KeyLe(KeyOf(last), KeyOf(x)) then s + [x]
      else
        var r := InsertLast(init, x);
        assert forall y :: y in init ==> KeyLe(KeyOf(y), KeyOf(last));
        assert forall i :: 0 <= i < |r| ==> KeyLe(KeyOf(r[i]), KeyOf(last));
        r + [last]
  }

  /** Python's `list.sort(key=...)`: a stable sort by key (here, insertion sort). */
  function StableSort(xs: seq<Keyed>): (r: seq<Keyed>)
    ensures KeySorted(r)
    ensures forall y :: y in r <==> y in xs
    ensures |r| == |xs|
  {
    if xs == [] then []
    else
      assert forall y :: y in xs <==> y in xs[..|xs| - 1] || y == xs[|xs| - 1];
      InsertLast(StableSort(xs[..|xs| - 1]), xs[|xs| - 1])
  }

  /** The accessions of the entries, `[acc[2] for acc in accs_numerical]`. */
  function AccsOf(xs: seq<Keyed>): (r: seq<string>)
    ensures |r| == |xs| && forall i :: 0 <= i < |xs| ==> r[i] == xs[i].acc
  {
    seq(|xs|, i requires 0 <= i < |xs| => xs[i].acc)
  }

  /** The accessions of a merged group in the order the combined database lists them. */
  function NumericOrder(accs: seq<string>): seq<string>
  {
    AccsOf(StableSort(ParsedKeys(accs)))
  }

  /** The entries with key `k`, in order. */
  function WithKey(xs: seq<Keyed>, k: (int, int)): seq<Keyed>
  {
    if xs == [] then []
    else
      var last := xs[|xs| - 1];
      WithKey(xs[..|xs| - 1], k) + (if KeyOf(last) == k then [last] else [])
  }

  lemma {:induction false} WithKeyAppend(a: seq<Keyed>, b: seq<Keyed>, k: (int, int))
    ensures WithKey(a + b, k) == WithKey(a, k) + WithKey(b, k)
    decreases |b|
  {
    if b == [] {
      assert a + b == a;
    } else {
      assert (a + b)[..|a + b| - 1] == a + b[..|b| - 1];
      WithKeyAppend(a, b[..|b| - 1], k);
    }
  }

  lemma WithKeySingle(x: Keyed, k: (int, int))
    ensures WithKey([x], k) == if KeyOf(x) == k then [x] else []
  {
    assert [x][..0] == [];
  }

  lemma SwapAtMostOne<T>(a: seq<T>, p: seq<T>, q: seq<T>)
    requires p == [] || q == []
    ensures a + p + q == a + q + p
  {
    if p == [] {
      assert a + p == a;
    } else {
      assert a + q == a;
    }
  }

  /** Inserting an entry adds it at the end of the entries sharing its key. */
  lemma {:induction false} InsertLastWithKey(s: seq<Keyed>, x: Keyed, k: (int, int))
    requires KeySorted(s)
    ensures WithKey(InsertLast(s, x), k) == WithKey(s, k) + (if KeyOf(x) == k then [x] else [])
  {
    WithKeySingle(x, k);
    if s != [] {
      var init, last := s[..|s| - 1], s[|s| - 1];
      if KeyLe(KeyOf(last), KeyOf(x)) {
        assert InsertLast(s, x) == s + [x];
        WithKeyAppend(s, [x], k);
      } else {
        assert KeySorted(init);
        var r := InsertLast(init, x);
        assert InsertLast(s, x) == r + [last];
        assert s == init + [last];
        InsertLastWithKey(init, x, k);
        WithKeyAppend(r, [last], k);
        WithKeyAppend(init, [last], k);
        WithKeySingle(last, k);
        var p, q := if KeyOf(x) == k then [x] else [], if KeyOf(last) == k then [last] else [];
        assert p == [] || q == [];
        SwapAtMostOne(WithKey(init, k), p, q);
      }
    }
  }

  /** Stability: the sort keeps the relative order of entries with equal keys. */
  lemma {:induction false} StableSortWithKey(xs: seq<Keyed>, k: (int, int))
    ensures WithKey(StableSort(xs), k) == WithKey(xs, k)
  {
    if xs != [] {
      StableSortWithKey(xs[..|xs| - 1], k);
      InsertLastWithKey(StableSort(xs[..|xs| - 1]), xs[|xs| - 1], k);
    }
  }

  /** The sort only rearranges: the accessions sorted are those given, with multiplicity. */
  lemma {:induction false} InsertLastAccs(s: seq<Keyed>, x: Keyed)
    requires KeySorted(s)
    ensures multiset(AccsOf(InsertLast(s, x))) == multiset(AccsOf(s)) + multiset{x.acc}
  {
    if s != [] {
      var init, last := s[..|s| - 1], s[|s| - 1];
      if KeyLe(KeyOf(last), KeyOf(x)) {
        assert AccsOf(s + [x]) == AccsOf(s) + [x.acc];
      } else {
        InsertLastAccs(init, x);
        assert AccsOf(InsertLast(init, x) + [last]) == AccsOf(InsertLast(init, x)) + [last.acc];
        assert AccsOf(s) == AccsOf(init) + [last.acc];
      }
    }
  }

  lemma {:induction false} StableSortAccs(xs: seq<Keyed>)
    ensures multiset(AccsOf(StableSort(xs))) == multiset(AccsOf(xs))
  {
    if xs != [] {
      var init := xs[..|xs| - 1];
      StableSortAccs(init);
      InsertLastAccs(StableSort(init), xs[|xs| - 1]);
      assert AccsOf(xs) == AccsOf(init) + [xs[|xs| - 1].acc];
    }
  }

  /** The accessions that have a key, in input order. */
  function Parseable(accs: seq<string>): seq<string>
  {
    if accs == [] then []
    else
      var last := accs[|accs| - 1];
      Parseable(accs[..|accs| - 1]) + (if SortKey(last).Some? then [last] else [])
  }

  /** The accessions whose key under `key` is `k`, in order. */
  function KeyFilter(accs: seq<string>, key: string -> Option<(int, int)>, k: (int, int)): seq<string>
  {
    if accs == [] then []
    else
      var last := accs[|accs| - 1];
      KeyFilter(accs[..|accs| - 1], key, k) + (if key(last) == Some(k) then [last] else [])
  }

  /** Each collected entry carries the key of its accession. */
  lemma {:induction false} ParsedKeysKeyed(accs: seq<string>)
    ensures forall x :: x in ParsedKeys(accs) ==> SortKey(x.acc) == Some(KeyOf(x))
  {
    if accs != [] {
      ParsedKeysKeyed(accs[..|accs| - 1]);
    }
  }

  lemma {:induction false} ParsedKeysAccs(accs: seq<string>)
    ensures AccsOf(ParsedKeys(accs)) == Parseable(accs)
  {
    if accs != [] {
      ParsedKeysAccs(accs[..|accs| - 1]);
    }
  }

  /** Filtering entries by key and filtering their accessions by key agree,
      when every entry carries the key of its accession. */
  lemma {:induction false} KeyFilterAccs(xs: seq<Keyed>, key: string -> Option<(int, int)>, k: (int, int))
    requires forall x :: x in xs ==> key(x.acc) == Some(KeyOf(x))
    ensures KeyFilter(AccsOf(xs), key, k) == AccsOf(WithKey(xs, k))
  {
    if xs != [] {
      var init, last := xs[..|xs| - 1], xs[|xs| - 1];
      assert forall x :: x in init ==> x in xs;
      KeyFilterAccs(init, key, k);
      var a := AccsOf(xs);
      assert a[..|a| - 1] == AccsOf(init);
      assert last in xs;
    }
  }

  /** The ordered group holds exactly the accessions that have a key, each as
      often as in the group: accessions that fail to parse are dropped. */
  lemma NumericOrderPermutes(accs: seq<string>)
    ensures multiset(NumericOrder(accs)) == multiset(Parseable(accs))
  {
    StableSortAccs(ParsedKeys(accs));
    ParsedKeysAccs(accs);
  }

  /** The ordered group is ascending by gene number, then by isoform number. */
  lemma NumericOrderSorted(accs: seq<string>)
    ensures forall i :: 0 <= i < |NumericOrder(accs)| ==> SortKey(NumericOrder(accs)[i]).Some?
    ensures forall i, j :: 0 <= i < j < |NumericOrder(accs)| ==>
              KeyLe(SortKey(NumericOrder(accs)[i]).value, SortKey(NumericOrder(accs)[j]).value)
  {
    var ks := StableSort(ParsedKeys(accs));
    ParsedKeysKeyed(accs);
    assert forall i :: 0 <= i < |ks| ==> ks[i] in ParsedKeys(accs);
  }

  /** Accessions with equal numbers keep the order they had in the group. */
  lemma NumericOrderStable(accs: seq<string>, k: (int, int))
    ensures KeyFilter(NumericOrder(accs), SortKey, k) == KeyFilter(accs, SortKey, k)
  {
    var ks := ParsedKeys(accs);
    ParsedKeysKeyed(accs);
    KeyFilterAccs(StableSort(ks), SortKey, k);
    StableSortWithKey(ks, k);
    KeyFilterAccs(ks, SortKey, k);
    ParsedKeysAccs(accs);
    KeyFilterParseable(accs, k);
  }

  lemma {:induction false} KeyFilterParseable(accs: seq<string>, k: (int, int))
    ensures KeyFilter(Parseable(accs), SortKey, k) == KeyFilter(accs, SortKey, k)
  {
    if accs != [] {
      var init := accs[..|accs| - 1];
      var last := accs[|accs| - 1];
      KeyFilterParseable(init, k);
      var p := Parseable(accs);
      var tail := if SortKey(last) == Some(k) then [last] else [];
      assert KeyFilter(accs, SortKey, k) == KeyFilter(init, SortKey, k) + tail;
      if SortKey(last).Some? {
        assert p == Parseable(init) + [last];
        assert p[..|p| - 1] == Parseable(init) && p[|p| - 1] == last;
        assert KeyFilter(p, SortKey, k) == KeyFilter(Parseable(init), SortKey, k) + tail;
      } else {
        assert p == Parseable(init);
      }
    }
  }

  /** `order_enst_acc_numerically`: collects `[gene_idx, iso_idx, acc]` for the
      accessions that parse, sorts by the two numbers and keeps the accessions. */
  method OrderAccessionsNumerically(accs: seq<string>) returns (numSortedAccs: seq<string>)
    ensures numSortedAccs == NumericOrder(accs)
  {
    var accsNumerical: seq<Keyed> := [];
    for i := 0 to |accs|
      invariant accsNumerical == ParsedKeys(accs[..i])
    {
      assert accs[..i + 1][..i] == accs[..i];
      var key := SortKey(accs[i]);
      match key {
        case Some((geneIdx, isoIdx)) =>
          accsNumerical := accsNumerical + [Keyed(geneIdx, isoIdx, accs[i])];
        case None =>
      }
    }
    assert accs[..|accs|] == accs;
    accsNumerical := StableSort(accsNumerical);
    numSortedAccs := AccsOf(accsNumerical);
  }

  // ---------------------------------------------------------------------------
  // Merged names: the combined table written by `main`
  // ---------------------------------------------------------------------------

  /** The merged accession string of a group: its numerically ordered accessions joined by `|`. */
  function MergedName(accs: seq<string>): string
  {
    Join(NumericOrder(accs), "|")
  }

  /** An accession that has a key contains a dot, so it is not empty. */
  lemma SortKeyNonEmpty(acc: string)
    requires SortKey(acc).Some?
    ensures acc != []
  {
    if acc == [] {
      FindNoChar(acc, '.');
    }
  }

  lemma {:induction false} JoinNonEmpty(parts: seq<string>, sep: string)
    requires |parts| >= 1 && parts[0] != []
    ensures Join(parts, sep) != [] && Join(parts, sep)[0] == parts[0][0]
  {
  }

  /** Splitting the merged name at `|` gives back the ordered group, and its
      first piece (`base_acc`) is the first ordered accession, whenever the
      accessions are free of `|` and at least one of them has a key. */
  lemma MergedNameRoundTrip(accs: seq<string>)
    requires forall a :: a in accs ==> '|' !in a
    requires NumericOrder(accs) != []
    ensures Split(MergedName(accs), "|") == NumericOrder(accs)
    ensures Split(MergedName(accs), "|")[0] == NumericOrder(accs)[0]
  {
    var ordered := NumericOrder(accs);
    NumericOrderPermutes(accs);
    ParseableSub(accs);
    forall i | 0 <= i < |ordered| ensures '|' !in ordered[i] {
      assert ordered[i] in multiset(ordered);
    }
    SplitJoin(ordered, '|');
  }

  /** The accessions that have a key are accessions of the group. */
  lemma {:induction false} ParseableSub(accs: seq<string>)
    ensures forall a :: a in Parseable(accs) ==> a in accs && SortKey(a).Some?
  {
    if accs != [] {
      ParseableSub(accs[..|accs| - 1]);
    }
  }

  /** The merged name is empty exactly when no accession of the group has a key. */
  lemma MergedNameEmpty(accs: seq<string>)
    ensures MergedName(accs) == [] <==> Parseable(accs) == []
  {
    var ordered := NumericOrder(accs);
    NumericOrderPermutes(accs);
    if Parseable(accs) == [] {
      assert multiset(ordered) == multiset{};
    } else {
      assert |ordered| > 0 by {
        assert Parseable(accs)[0] in multiset(ordered);
      }
      NumericOrderSorted(accs);
      SortKeyNonEmpty(ordered[0]);
      JoinNonEmpty(ordered, "|");
    }
  }

  /** One line of the combined table: a protein and the merged name of its group. */
  datatype CombinedEntry = CombinedEntry(protein: string, pbAccs: string)

  /** The combined table of a grouping: one entry per protein, in the dictionary's order. */
  function CombinedOf(groups: ProteinGroups): (combined: seq<CombinedEntry>)
    requires WellFormed(groups)
    ensures |combined| == |groups.order|
  {
    seq(|groups.order|, i requires 0 <= i < |groups.order| =>
      CombinedEntry(groups.order[i], MergedName(groups.members[groups.order[i]])))
  }

  /** A combined entry has an empty merged name exactly when none of its
      group's accessions has a numeric key. */
  lemma CombinedOfEmpty(groups: ProteinGroups)
    requires WellFormed(groups)
    ensures (exists i :: 0 <= i < |CombinedOf(groups)| && CombinedOf(groups)[i].pbAccs == []) <==>
              exists p :: p in groups.members && Parseable(groups.members[p]) == []
  {
    var combined := CombinedOf(groups);
    if exists i :: 0 <= i < |combined| && combined[i].pbAccs == [] {
      var i :| 0 <= i < |combined| && combined[i].pbAccs == [];
      MergedNameEmpty(groups.members[groups.order[i]]);
    }
    if exists p :: p in groups.members && Parseable(groups.members[p]) == [] {
      var p :| p in groups.members && Parseable(groups.members[p]) == [];
      var i :| 0 <= i < |groups.order| && groups.order[i] == p;
      MergedNameEmpty(groups.members[p]);
      assert combined[i].pbAccs == [];
    }
  }

  /** The loop over `pb_pseqs.items()` that writes the combined table, one entry
      per protein in the dictionary's order. */
  method WriteCombined(groups: ProteinGroups) returns (combined: seq<CombinedEntry>)
    requires WellFormed(groups)
    ensures combined == CombinedOf(groups)
  {
    combined := [];
    for i := 0 to |groups.order|
      invariant |combined| == i
      invariant forall k :: 0 <= k < i ==>
                  combined[k] == CombinedEntry(groups.order[k], MergedName(groups.members[groups.order[k]]))
    {
      var prot := groups.order[i];
      var accsSorted := OrderAccessionsNumerically(groups.members[prot]);
      var accsStr := Join(accsSorted, "|");
      combined := combined + [CombinedEntry(prot, accsStr)];
    }
  }

  // ---------------------------------------------------------------------------
  // Aggregation: aggregate_results and get_total
  // ---------------------------------------------------------------------------

  /** `orf_dict.get(acc, 0)`. */
  function Lookup(table: map<string, real>, acc: string): real
  {
    if acc in table then table[acc] else 0.0
  }

  /** The value `get_total` returns: the sum of the looked-up values of the accessions. */
  function Total(accessions: seq<string>, table: map<string, real>): real
  {
    if accessions == [] then 0.0
    else Total(accessions[..|accessions| - 1], table) + Lookup(table, accessions[|accessions| - 1])
  }

  lemma {:induction false} TotalAppend(a: seq<string>, b: seq<string>, table: map<string, real>)
    ensures Total(a + b, table) == Total(a, table) + Total(b, table)
    decreases |b|
  {
    if b == [] {
      assert a + b == a;
    } else {
      assert (a + b)[..|a + b| - 1] == a + b[..|b| - 1];
      TotalAppend(a, b[..|b| - 1], table);
    }
  }

  /** Taking one accession out of a list takes its value out of the total. */
  lemma TotalRemove(b: seq<string>, j: nat, table: map<string, real>)
    requires j < |b|
    ensures Total(b, table) == Total(b[..j] + b[j + 1..], table) + Lookup(table, b[j])
  {
    assert b == b[..j] + [b[j]] + b[j + 1..];
    TotalAppend(b[..j] + [b[j]], b[j + 1..], table);
    TotalAppend(b[..j], [b[j]], table);
    TotalAppend(b[..j], b[j + 1..], table);
    assert [b[j]][..0] == [];
  }

  lemma MultisetRemove(a: seq<string>, b: seq<string>, j: nat)
    requires multiset(a) == multiset(b) && a != [] && j < |b| && b[j] == a[|a| - 1]
    ensures multiset(b[..j] + b[j + 1..]) == multiset(a[..|a| - 1])
  {
    assert a == a[..|a| - 1] + [a[|a| - 1]];
    assert b == b[..j] + [b[j]] + b[j + 1..];
    assert multiset(b[..j] + b[j + 1..]) == multiset(b) - multiset{b[j]};
    assert multiset(a[..|a| - 1]) == multiset(a) - multiset{b[j]};
  }

  /** The total does not depend on the order of the accessions, only on how often each occurs. */
  lemma {:induction false} TotalPermutation(a: seq<string>, b: seq<string>, table: map<string, real>)
    requires multiset(a) == multiset(b)
    ensures Total(a, table) == Total(b, table)
    decreases |a|
  {
    if a != [] {
      var x := a[|a| - 1];
      assert x in multiset(b);
      var j :| 0 <= j < |b| && b[j] == x;
      MultisetRemove(a, b, j);
      TotalPermutation(a[..|a| - 1], b[..j] + b[j + 1..], table);
      TotalRemove(b, j, table);
    } else {
      assert |b| == |multiset(b)| == 0;
    }
  }

  /** Non-negative counts add up to a non-negative total. */
  lemma {:induction false} TotalNonNegative(accessions: seq<string>, table: map<string, real>)
    requires forall a :: a in table ==> table[a] >= 0.0
    ensures Total(accessions, table) >= 0.0
  {
    if accessions != [] {
      TotalNonNegative(accessions[..|accessions| - 1], table);
    }
  }

  /** `get_total(accessions, orf_dict)`. */
  method GetTotal(accessions: seq<string>, orfDict: map<string, real>) returns (total: real)
    ensures total == Total(accessions, orfDict)
  {
    total := 0.0;
    for i := 0 to |accessions|
      invariant total == Total(accessions[..i], orfDict)
    {
      assert accessions[..i + 1][..i] == accessions[..i];
      total := total + (if accessions[i] in orfDict then orfDict[accessions[i]] else 0.0);
    }
    assert accessions[..|accessions|] == accessions;
  }

  /** `pd.Series(orfs.FL.values, index=orfs.pb_acc).to_dict()`: a later row of an accession wins. */
  function FlTable(orfs: seq<OrfRow>): map<string, real>
  {
    LastWins(seq(|orfs|, i requires 0 <= i < |orfs| => (orfs[i].pbAcc, orfs[i].fl)))
  }

  function CpmTable(orfs: seq<OrfRow>): map<string, real>
  {
    LastWins(seq(|orfs|, i requires 0 <= i < |orfs| => (orfs[i].pbAcc, orfs[i].cpm)))
  }

  /** The value recorded for an accession is the FL (CPM) of its last row in the table. */
  lemma TablesLastRow(orfs: seq<OrfRow>, i: nat)
    requires i < |orfs|
    requires forall j :: i < j < |orfs| ==> orfs[j].pbAcc != orfs[i].pbAcc
    ensures Lookup(FlTable(orfs), orfs[i].pbAcc) == orfs[i].fl
    ensures Lookup(CpmTable(orfs), orfs[i].pbAcc) == orfs[i].cpm
  {
    LastWinsAt(seq(|orfs|, i requires 0 <= i < |orfs| => (orfs[i].pbAcc, orfs[i].fl)), i);
    LastWinsAt(seq(|orfs|, i requires 0 <= i < |orfs| => (orfs[i].pbAcc, orfs[i].cpm)), i);
  }

  /** An accession with no row counts zero. */
  lemma TablesMissing(orfs: seq<OrfRow>, acc: string)
    requires forall i :: 0 <= i < |orfs| ==> orfs[i].pbAcc != acc
    ensures Lookup(FlTable(orfs), acc) == 0.0 && Lookup(CpmTable(orfs), acc) == 0.0
  {
    LastWinsKeys(seq(|orfs|, i requires 0 <= i < |orfs| => (orfs[i].pbAcc, orfs[i].fl)));
    LastWinsKeys(seq(|orfs|, i requires 0 <= i < |orfs| => (orfs[i].pbAcc, orfs[i].cpm)));
  }

  /** One row of the aggregated table. */
  datatype Aggregated = Aggregated(protein: string, pbAccs: string, accessions: seq<string>, baseAcc: string, fl: real, cpm: real)

  /** The aggregated row of a combined entry whose merged name is not empty. */
  function AggregateEntry(entry: CombinedEntry, orfs: seq<OrfRow>): Aggregated
    requires entry.pbAccs != []
  {
    var accessions := Split(entry.pbAccs, "|");
    Aggregated(entry.protein, entry.pbAccs, accessions, accessions[0],
               Total(accessions, FlTable(orfs)), Total(accessions, CpmTable(orfs)))
  }

  /** An aggregated row's accessions are those of the merged name's group and its
      base accession is the group's first ordered member; its FL and CPM are the
      sums over those accessions, counting zero for one with no row. */
  lemma AggregateOfMerged(protein: string, accs: seq<string>, orfs: seq<OrfRow>)
    requires forall a :: a in accs ==> '|' !in a
    requires Parseable(accs) != []
    ensures MergedName(accs) != []
    ensures var agg := AggregateEntry(CombinedEntry(protein, MergedName(accs)), orfs);
            && agg.accessions == NumericOrder(accs)
            && agg.baseAcc == NumericOrder(accs)[0]
            && agg.fl == Total(Parseable(accs), FlTable(orfs))
            && agg.cpm == Total(Parseable(accs), CpmTable(orfs))
  {
    MergedNameEmpty(accs);
    NumericOrderPermutes(accs);
    assert NumericOrder(accs) != [] by {
      assert Parseable(accs)[0] in multiset(NumericOrder(accs));
    }
    MergedNameRoundTrip(accs);
    TotalPermutation(NumericOrder(accs), Parseable(accs), FlTable(orfs));
    TotalPermutation(NumericOrder(accs), Parseable(accs), CpmTable(orfs));
  }

  /** Every text of the run is a decimal digit (the run may be empty). */
  predicate AllDigits(s: string)
  {
    forall k :: 0 <= k < |s| ==> IsDigit(s[k])
  }

  /** A merged name that `pandas.read_csv` reads as a number rather than as text:
      an optional sign, then decimal digits around one `.`, with at least one
      digit (such as `12345678.5`, the name of a lone accession that has a key). */
  predicate DecimalLike(name: string)
  {
    var t := if |name| > 0 && (name[0] == '+' || name[0] == '-') then name[1..] else name;
    var parts := Split(t, ".");
    |parts| == 2 && AllDigits(parts[0]) && AllDigits(parts[1]) && |t| >= 2
  }

  /** The combined table's `pb_accs` column is read as a float column: it has
      rows, and each of them is empty (read as NaN) or reads as a number. */
  predicate NumericColumn(combined: seq<CombinedEntry>)
  {
    |combined| > 0 && forall i :: 0 <= i < |combined| ==> combined[i].pbAccs == [] || DecimalLike(combined[i].pbAccs)
  }

  /** No merged name of the combined table is empty. */
  predicate NoEmptyName(combined: seq<CombinedEntry>)
  {
    forall i :: 0 <= i < |combined| ==> combined[i].pbAccs != []
  }

  /** The aggregated table of a combined table without empty merged names. */
  function AggregateAll(combined: seq<CombinedEntry>, orfs: seq<OrfRow>): (aggs: seq<Aggregated>)
    requires NoEmptyName(combined)
    ensures |aggs| == |combined|
  {
    seq(|combined|, i requires 0 <= i < |combined| => AggregateEntry(combined[i], orfs))
  }

  /** `aggregate_results` on the re-read combined table. A column read as
      numbers has no `.str` accessor, which raises AttributeError; otherwise
      an empty merged name is read back as a missing value, and taking the first
      piece of its split raises TypeError. */
  method AggregateResults(combined: seq<CombinedEntry>, orfs: seq<OrfRow>) returns (r: Result<seq<Aggregated>>)
    ensures r.Err? <==> NumericColumn(combined) || !NoEmptyName(combined)
    ensures r.Err? ==> (r.error.AttributeError? <==> NumericColumn(combined))
    ensures r.Err? ==> r.error.AttributeError? || r.error.TypeError?
    ensures r.Ok? ==> NoEmptyName(combined) && r.value == AggregateAll(combined, orfs)
  {
    if NumericColumn(combined) {
      return Err(AttributeError("Can only use .str accessor with string values!"));
    }
    var flDict := FlTable(orfs);
    var cpmDict := CpmTable(orfs);
    var rows: seq<Aggregated> := [];
    for i := 0 to |combined|
      invariant |rows| == i
      invariant forall k :: 0 <= k < i ==> combined[k].pbAccs != [] && rows[k] == AggregateEntry(combined[k], orfs)
    {
      var entry := combined[i];
      if entry.pbAccs == [] {
        return Err(TypeError("'float' object is not subscriptable"));
      }
      var accessions := Split(entry.pbAccs, "|");
      var fl := GetTotal(accessions, flDict);
      var cpm := GetTotal(accessions, cpmDict);
      rows := rows + [Aggregated(entry.protein, entry.pbAccs, accessions, accessions[0], fl, cpm)];
    }
    return Ok(rows);
  }

  /** When no group has an accession with a key (all of them PacBio-style
      `PB.<gene>.<isoform>`, say), every merged name is empty and the column
      holds only missing values, so the aggregation raises AttributeError
      rather than TypeError. */
  lemma UnkeyedGroupsNumeric(groups: ProteinGroups)
    requires WellFormed(groups) && |groups.order| > 0
    requires forall p :: p in groups.members ==> Parseable(groups.members[p]) == []
    ensures NumericColumn(CombinedOf(groups)) && !NoEmptyName(CombinedOf(groups))
  {
    var combined := CombinedOf(groups);
    forall i | 0 <= i < |combined| ensures combined[i].pbAccs == [] {
      assert groups.order[i] in groups.order;
      MergedNameEmpty(groups.members[groups.order[i]]);
    }
    assert combined[0].pbAccs == [];
  }

  /** A merged name with a `|` (a group of two or more keyed accessions) is read
      as text, so its column is never numeric. */
  lemma BarNameNotDecimal(name: string)
    requires '|' in name
    ensures !DecimalLike(name)
  {
    var t := if |name| > 0 && (name[0] == '+' || name[0] == '-') then name[1..] else name;
    assert '|' in t by {
      var k :| 0 <= k < |name| && name[k] == '|';
      if t != name {
        assert t[k - 1] == name[k];
      }
    }
    DecimalHasNoBar(t);
  }

  /** A text that splits at `.` into two digit runs holds no `|`. */
  lemma DecimalHasNoBar(t: string)
    ensures var parts := Split(t, ".");
            |parts| == 2 && AllDigits(parts[0]) && AllDigits(parts[1]) ==> '|' !in t
  {
    var parts := Split(t, ".");
    if |parts| == 2 && AllDigits(parts[0]) && AllDigits(parts[1]) {
      JoinSplit(t, ".");
      assert parts[1..] == [parts[1]];
      DigitsAroundPoint(parts[0], parts[1]);
    }
  }

  /** Digits around a point hold nothing but digits and the point. */
  lemma DigitsAroundPoint(a: string, b: string)
    requires AllDigits(a) && AllDigits(b)
    ensures forall c :: c in a + "." + b ==> IsDigit(c) || c == '.'
  {
    forall c | c in a + "." + b ensures IsDigit(c) || c == '.' {
      var k :| 0 <= k < |a + "." + b| && (a + "." + b)[k] == c;
      if k < |a| {
        assert c == a[k];
      } else if k > |a| {
        assert c == b[k - |a| - 1];
      }
    }
  }


  // ---------------------------------------------------------------------------
  // Refined table: the inner merge on base_acc
  // ---------------------------------------------------------------------------

  /** One row of `pd.merge(pacbio, orfs, how='inner', left_on='base_acc', right_on='pb_acc')`. */
  datatype MergedRow = MergedRow(agg: Aggregated, orf: OrfRow)

  /** The ORF rows that match one aggregated row, in table order. */
  function Matches(agg: Aggregated, orfs: seq<OrfRow>): seq<MergedRow>
  {
    if orfs == [] then []
    else
      var last := orfs[|orfs| - 1];
      Matches(agg, orfs[..|orfs| - 1]) + (if last.pbAcc == agg.baseAcc then [MergedRow(agg, last)] else [])
  }

  /** The inner merge: for each aggregated row in order, one row per matching ORF row. */
  function MergeOnBase(aggs: seq<Aggregated>, orfs: seq<OrfRow>): seq<MergedRow>
  {
    if aggs == [] then []
    else MergeOnBase(aggs[..|aggs| - 1], orfs) + Matches(aggs[|aggs| - 1], orfs)
  }

  lemma {:induction false} MatchesMembers(agg: Aggregated, orfs: seq<OrfRow>)
    ensures forall m :: m in Matches(agg, orfs) <==> m.agg == agg && m.orf in orfs && m.orf.pbAcc == agg.baseAcc
  {
    if orfs != [] {
      MatchesMembers(agg, orfs[..|orfs| - 1]);
      assert orfs == orfs[..|orfs| - 1] + [orfs[|orfs| - 1]];
    }
  }

  /** A merged row pairs an aggregated row with an ORF row of its base accession,
      and every such pair is present. */
  lemma {:induction false} MergeOnBaseMembers(aggs: seq<Aggregated>, orfs: seq<OrfRow>)
    ensures forall m :: m in MergeOnBase(aggs, orfs) <==> m.agg in aggs && m.orf in orfs && m.orf.pbAcc == m.agg.baseAcc
  {
    if aggs != [] {
      var init := aggs[..|aggs| - 1];
      MergeOnBaseMembers(init, orfs);
      MatchesMembers(aggs[|aggs| - 1], orfs);
      assert aggs == init + [aggs[|aggs| - 1]];
    }
  }

  /** A row of the refined table; `gene` is absent when the ORF table has no gene column. */
  datatype RefinedRow = RefinedRow(
    pbAccs: string,
    baseAcc: string,
    codingScore: real,
    orfCallingConfidence: string,
    upstreamAtgs: string,
    orfScore: real,
    gene: Option<string>,
    fl: real,
    cpm: real)

  /** The column selection of the refined table. */
  function RefinedRows(merged: seq<MergedRow>, hasGene: bool): (rows: seq<RefinedRow>)
    ensures |rows| == |merged|
  {
    seq(|merged|, i requires 0 <= i < |merged| => Refine(merged[i], hasGene))
  }

  /** The selected columns of one merged row. */
  function Refine(m: MergedRow, hasGene: bool): RefinedRow
  {
    RefinedRow(m.agg.pbAccs, m.agg.baseAcc, m.orf.codingScore, m.orf.orfCallingConfidence,
               m.orf.upstreamAtgs, m.orf.orfScore, if hasGene then Some(m.orf.gene) else None,
               m.agg.fl, m.agg.cpm)
  }

  /** The refined row of a protein's group `accs` together with ORF row `o`:
      the merged name, its base accession (which is `o`'s accession), `o`'s
      score columns and gene, and the FL and CPM summed over the group's
      accessions that have a key. */
  predicate RowOfGroup(t: RefinedRow, accs: seq<string>, o: OrfRow, orfs: seq<OrfRow>, hasGene: bool)
  {
    && NumericOrder(accs) != [] && o.pbAcc == NumericOrder(accs)[0]
    && t == RefinedRow(MergedName(accs), o.pbAcc, o.codingScore, o.orfCallingConfidence, o.upstreamAtgs,
                       o.orfScore, if hasGene then Some(o.gene) else None,
                       Total(Parseable(accs), FlTable(orfs)), Total(Parseable(accs), CpmTable(orfs)))
  }

  /** Every group has an accession with a key and no accession holds a `|`. */
  predicate KeyedGroups(groups: ProteinGroups)
  {
    forall p :: p in groups.members ==>
      Parseable(groups.members[p]) != [] && forall a :: a in groups.members[p] ==> '|' !in a
  }

  /** With every group keyed, no merged name is empty. */
  lemma KeyedGroupsNames(groups: ProteinGroups)
    requires WellFormed(groups) && KeyedGroups(groups)
    ensures NoEmptyName(CombinedOf(groups))
  {
    var combined := CombinedOf(groups);
    forall i | 0 <= i < |combined| ensures combined[i].pbAccs != [] {
      assert groups.order[i] in groups.order;
      MergedNameEmpty(groups.members[groups.order[i]]);
    }
  }

  /** The aggregated row of the `i`-th protein of keyed groups is its group's. */
  lemma AggregateOfGroup(groups: ProteinGroups, orfs: seq<OrfRow>, i: nat)
    requires WellFormed(groups) && KeyedGroups(groups) && i < |groups.order|
    ensures NoEmptyName(CombinedOf(groups))
    ensures var accs := groups.members[groups.order[i]];
            var agg := AggregateAll(CombinedOf(groups), orfs)[i];
            && agg.pbAccs == MergedName(accs) && NumericOrder(accs) != []
            && agg.baseAcc == NumericOrder(accs)[0]
            && agg.fl == Total(Parseable(accs), FlTable(orfs))
            && agg.cpm == Total(Parseable(accs), CpmTable(orfs))
  {
    KeyedGroupsNames(groups);
    assert groups.order[i] in groups.order;
    AggregateOfMerged(groups.order[i], groups.members[groups.order[i]], orfs);
  }

  /** A row of the refined table of aggregated groups is the selection of one
      aggregated row and one ORF row of its base accession. */
  lemma RefinedRowAt(aggs: seq<Aggregated>, orfs: seq<OrfRow>, hasGene: bool, k: nat)
    requires k < |RefinedRows(MergeOnBase(aggs, orfs), hasGene)|
    ensures exists i, j :: 0 <= i < |aggs| && 0 <= j < |orfs| && orfs[j].pbAcc == aggs[i].baseAcc &&
              RefinedRows(MergeOnBase(aggs, orfs), hasGene)[k] == Refine(MergedRow(aggs[i], orfs[j]), hasGene)
  {
    var merged := MergeOnBase(aggs, orfs);
    MergeOnBaseMembers(aggs, orfs);
    assert merged[k] in merged;
    var i :| 0 <= i < |aggs| && aggs[i] == merged[k].agg;
    var j :| 0 <= j < |orfs| && orfs[j] == merged[k].orf;
    assert merged[k] == MergedRow(aggs[i], orfs[j]);
  }

  /** The selection of the `i`-th protein's aggregated row with an ORF row of its base accession is that group's row. */
  lemma RefineOfGroup(groups: ProteinGroups, orfs: seq<OrfRow>, hasGene: bool, i: nat, j: nat)
    requires WellFormed(groups) && KeyedGroups(groups) && NoEmptyName(CombinedOf(groups))
    requires i < |groups.order| && j < |orfs| && orfs[j].pbAcc == AggregateAll(CombinedOf(groups), orfs)[i].baseAcc
    ensures RowOfGroup(Refine(MergedRow(AggregateAll(CombinedOf(groups), orfs)[i], orfs[j]), hasGene),
                       groups.members[groups.order[i]], orfs[j], orfs, hasGene)
  {
    AggregateOfGroup(groups, orfs, i);
  }

  /** Each row of the refined table comes from a protein's group and an ORF row of its base accession. */
  lemma RefinedRowFromGroup(groups: ProteinGroups, orfs: seq<OrfRow>, hasGene: bool, k: nat)
    requires WellFormed(groups) && KeyedGroups(groups) && NoEmptyName(CombinedOf(groups))
    requires k < |RefinedRows(MergeOnBase(AggregateAll(CombinedOf(groups), orfs), orfs), hasGene)|
    ensures exists i, j :: 0 <= i < |groups.order| && 0 <= j < |orfs| &&
              RowOfGroup(RefinedRows(MergeOnBase(AggregateAll(CombinedOf(groups), orfs), orfs), hasGene)[k],
                         groups.members[groups.order[i]], orfs[j], orfs, hasGene)
  {
    var aggs := AggregateAll(CombinedOf(groups), orfs);
    RefinedRowAt(aggs, orfs, hasGene, k);
    var i, j :| 0 <= i < |aggs| && 0 <= j < |orfs| && orfs[j].pbAcc == aggs[i].baseAcc &&
                RefinedRows(MergeOnBase(aggs, orfs), hasGene)[k] == Refine(MergedRow(aggs[i], orfs[j]), hasGene);
    RefineOfGroup(groups, orfs, hasGene, i, j);
  }

  /** The row of a protein's group and an ORF row of its base accession is in the refined table. */
  lemma GroupRowRefined(groups: ProteinGroups, orfs: seq<OrfRow>, hasGene: bool, t: RefinedRow, i: nat, j: nat)
    requires WellFormed(groups) && KeyedGroups(groups)
    requires NoEmptyName(CombinedOf(groups))
    requires i < |groups.order| && j < |orfs| && RowOfGroup(t, groups.members[groups.order[i]], orfs[j], orfs, hasGene)
    ensures t in RefinedRows(MergeOnBase(AggregateAll(CombinedOf(groups), orfs), orfs), hasGene)
  {
    AggregateOfGroup(groups, orfs, i);
    var aggs := AggregateAll(CombinedOf(groups), orfs);
    RefinedRowOf(aggs, orfs, hasGene, i, j);
  }

  /** An aggregated row selected with an ORF row of its base accession is in the refined table. */
  lemma RefinedRowOf(aggs: seq<Aggregated>, orfs: seq<OrfRow>, hasGene: bool, i: nat, j: nat)
    requires i < |aggs| && j < |orfs| && orfs[j].pbAcc == aggs[i].baseAcc
    ensures Refine(MergedRow(aggs[i], orfs[j]), hasGene) in RefinedRows(MergeOnBase(aggs, orfs), hasGene)
  {
    var merged := MergeOnBase(aggs, orfs);
    var m := MergedRow(aggs[i], orfs[j]);
    assert aggs[i] in aggs;
    MergeOnBaseMembers(aggs, orfs);
    assert m in merged;
    var k :| 0 <= k < |merged| && merged[k] == m;
    assert RefinedRows(merged, hasGene)[k] == Refine(m, hasGene);
  }

  /** The refined table holds exactly one row for each protein's group and each
      ORF row of the group's base accession, with the FL and CPM summed over
      the group. */
  lemma RefinedTableOfGroups(groups: ProteinGroups, orfs: seq<OrfRow>, hasGene: bool)
    requires WellFormed(groups) && KeyedGroups(groups)
    ensures NoEmptyName(CombinedOf(groups))
    ensures forall t :: t in RefinedRows(MergeOnBase(AggregateAll(CombinedOf(groups), orfs), orfs), hasGene) <==>
              exists i, j :: 0 <= i < |groups.order| && 0 <= j < |orfs| &&
                RowOfGroup(t, groups.members[groups.order[i]], orfs[j], orfs, hasGene)
  {
    KeyedGroupsNames(groups);
    forall t | t in RefinedRows(MergeOnBase(AggregateAll(CombinedOf(groups), orfs), orfs), hasGene)
      ensures exists i, j :: 0 <= i < |groups.order| && 0 <= j < |orfs| &&
                RowOfGroup(t, groups.members[groups.order[i]], orfs[j], orfs, hasGene)
    {
      var table := RefinedRows(MergeOnBase(AggregateAll(CombinedOf(groups), orfs), orfs), hasGene);
      var k :| 0 <= k < |table| && table[k] == t;
      RefinedRowFromGroup(groups, orfs, hasGene, k);
    }
    forall t, i, j | 0 <= i < |groups.order| && 0 <= j < |orfs| &&
                     RowOfGroup(t, groups.members[groups.order[i]], orfs[j], orfs, hasGene)
      ensures t in RefinedRows(MergeOnBase(AggregateAll(CombinedOf(groups), orfs), orfs), hasGene)
    {
      GroupRowRefined(groups, orfs, hasGene, t, i, j);
    }
  }

  // ---------------------------------------------------------------------------
  // Refined FASTA
  // ---------------------------------------------------------------------------

  /** The identifier SeqIO gives a FASTA title: its first white-space-delimited word. */
  function FastaId(title: string): string
  {
    var t := TrimLeft(title, Whitespace);
    t[..WordLength(t)]
  }

  /** A title without white space is its own identifier. */
  lemma FastaIdPlain(title: string)
    requires Plain(title)
    ensures FastaId(title) == title
  {
    if title != [] {
      assert title[0] !in Whitespace;
      assert TrimLeft(title, Whitespace) == title;
    }
  }

  /** The header of a refined database entry. */
  function RefinedHeader(baseAcc: string, gene: Option<string>): string
  {
    match gene
    case Some(g) => ">pb|" + baseAcc + "|fullname GN=" + g
    case None => ">pb|" + baseAcc
  }

  /** Three `|`-free fields joined by `|` split back into those fields. */
  lemma SplitThree(a: string, b: string, c: string)
    requires '|' !in a && '|' !in b && '|' !in c
    ensures Split(a + "|" + b + "|" + c, "|") == [a, b, c]
  {
    SplitTriple(a, b, c, '|');
  }

  lemma SplitTwo(a: string, b: string)
    requires '|' !in a && '|' !in b
    ensures Split(a + "|" + b, "|") == [a, b]
  {
    SplitPair(a, b, '|');
  }

  /** A header read back: after the `>`, its `|`-fields are `pb`, the base
      accession and `fullname GN=<gene>`. */
  lemma RefinedHeaderFields(baseAcc: string, gene: string)
    requires '|' !in baseAcc && '|' !in gene
    ensures RefinedHeader(baseAcc, Some(gene))[0] == '>'
    ensures Split(RefinedHeader(baseAcc, Some(gene))[1..], "|") == ["pb", baseAcc, "fullname GN=" + gene]
  {
    var tail := "fullname GN=" + gene;
    assert RefinedHeader(baseAcc, Some(gene))[1..] == "pb" + "|" + baseAcc + "|" + tail;
    SplitThree("pb", baseAcc, tail);
  }

  /** Without a gene column the fields are `pb` and the base accession. */
  lemma RefinedHeaderFieldsNoGene(baseAcc: string)
    requires '|' !in baseAcc
    ensures RefinedHeader(baseAcc, None)[0] == '>'
    ensures Split(RefinedHeader(baseAcc, None)[1..], "|") == ["pb", baseAcc]
  {
    SplitTwo("pb", baseAcc);
    assert RefinedHeader(baseAcc, None)[1..] == "pb" + "|" + baseAcc;
  }

  /** One entry of the refined FASTA. */
  datatype FastaEntry = FastaEntry(header: string, sequence: string)

  /** `base_map = pd.Series(pacbio.base_acc.values, index=pacbio.pb_accs).to_dict()`. */
  function BaseMap(merged: seq<MergedRow>): map<string, string>
  {
    LastWins(seq(|merged|, i requires 0 <= i < |merged| => (merged[i].agg.pbAccs, merged[i].agg.baseAcc)))
  }

  /** `pb_gene = pd.Series(orfs.gene.values, index=orfs.pb_acc).to_dict()`. */
  function GeneMap(orfs: seq<OrfRow>): map<string, string>
  {
    LastWins(seq(|orfs|, i requires 0 <= i < |orfs| => (orfs[i].pbAcc, orfs[i].gene)))
  }

  /** The entry written for one record of the combined FASTA, or the KeyError raised for it. */
  function EmitEntry(entry: CombinedEntry, baseMap: map<string, string>, pbGene: map<string, string>, hasGene: bool): Result<FastaEntry>
  {
    var pbAcc := FastaId(entry.pbAccs);
    if pbAcc !in baseMap then Err(KeyError(pbAcc))
    else
      var baseAcc := baseMap[pbAcc];
      if !hasGene then Ok(FastaEntry(RefinedHeader(baseAcc, None), entry.protein))
      else if baseAcc !in pbGene then Err(KeyError(baseAcc))
      else Ok(FastaEntry(RefinedHeader(baseAcc, Some(pbGene[baseAcc])), entry.protein))
  }

  /** The entries written before the first KeyError, and that error if one is raised. */
  function EmitAll(combined: seq<CombinedEntry>, baseMap: map<string, string>, pbGene: map<string, string>, hasGene: bool)
    : (seq<FastaEntry>, Option<PyError>)
  {
    WriteUntilError(combined, (entry: CombinedEntry) => EmitEntry(entry, baseMap, pbGene, hasGene))
  }

  /** The loop that writes the refined FASTA over the records of the combined FASTA. */
  method WriteRefinedFasta(combined: seq<CombinedEntry>, merged: seq<MergedRow>, orfs: seq<OrfRow>, hasGene: bool)
    returns (entries: seq<FastaEntry>, err: Option<PyError>)
    ensures (entries, err) == EmitAll(combined, BaseMap(merged), GeneMap(orfs), hasGene)
    ensures err.Some? ==> err.value.KeyError?
  {
    var baseMap := BaseMap(merged);
    var pbGene := GeneMap(orfs);
    entries, err := [], None;
    for i := 0 to |combined|
      invariant (entries, err) == EmitAll(combined[..i], baseMap, pbGene, hasGene)
      invariant err.Some? ==> err.value.KeyError?
    {
      assert combined[..i + 1][..i] == combined[..i];
      if err.None? {
        var pbAcc := FastaId(combined[i].pbAccs);
        if pbAcc !in baseMap {
          err := Some(KeyError(pbAcc));
        } else {
          var baseAcc := baseMap[pbAcc];
          if !hasGene {
            entries := entries + [FastaEntry(RefinedHeader(baseAcc, None), combined[i].protein)];
          } else if baseAcc !in pbGene {
            err := Some(KeyError(baseAcc));
          } else {
            entries := entries + [FastaEntry(RefinedHeader(baseAcc, Some(pbGene[baseAcc])), combined[i].protein)];
          }
        }
      }
    }
    assert combined[..|combined|] == combined;
  }

  // ---------------------------------------------------------------------------
  // string_to_boolean
  // ---------------------------------------------------------------------------

  /** The argument: already a `bool`, or a string. */
  datatype BoolArg = BoolValue(b: bool) | StringValue(s: string)

  function StringToBoolean(arg: BoolArg): (r: Result<bool>)
  {
    match arg
    case BoolValue(b) => Ok(b)
    case StringValue(s) =>
      var l := Lower(s);
      if l in ["yes", "true", "t", "y", "1"] then Ok(true)
      else if l in ["no", "false", "f", "n", "0"] then Ok(false)
      else Err(ArgumentTypeError("Boolean value expected."))
  }

  /** A lower-cased string is unchanged by lower-casing again. */
  lemma LowerIdempotent(s: string)
    ensures Lower(Lower(s)) == Lower(s)
  {
    forall i | 0 <= i < |s| ensures LowerChar(LowerChar(s[i])) == LowerChar(s[i]) {
    }
  }

  /** The answer does not depend on letter case. */
  lemma StringToBooleanCaseInsensitive(s: string)
    ensures StringToBoolean(StringValue(Lower(s))) == StringToBoolean(StringValue(s))
  {
    LowerIdempotent(s);
  }

  /** `str(b)` of a boolean, `True` or `False`, converts back to `b`. */
  lemma StringToBooleanOfStr(b: bool)
    ensures StringToBoolean(StringValue(if b then "True" else "False")) == Ok(b)
  {
    if b {
      assert Lower("True") == "true";
    } else {
      assert Lower("False") == "false";
    }
  }

  // ---------------------------------------------------------------------------
  // The whole refinement
  // ---------------------------------------------------------------------------

  /** SeqIO identifiers never contain white space. */
  predicate PlainIds(records: seq<FastaRecord>)
  {
    forall i :: 0 <= i < |records| ==> Plain(records[i].id)
  }

  /** What the refinement produces: the redundant accessions reported, the refined table and the refined FASTA. */
  datatype Refined = Refined(redundant: seq<string>, table: seq<RefinedRow>, fasta: seq<FastaEntry>)

  /** The accession of every record is free of white space when its identifier is. */
  lemma AccessionsPlain(records: seq<FastaRecord>, a: string)
    requires PlainIds(records) && a in Accessions(records)
    ensures Plain(a)
  {
    var i :| 0 <= i < |records| && Accessions(records)[i] == a;
    SplitFirstPrefix(records[i].id, "|");
    assert Plain(records[i].id);
  }

  /** The ordered group is drawn from the group, and is not empty when some accession has a key. */
  lemma NumericOrderFromGroup(accs: seq<string>)
    ensures forall a :: a in NumericOrder(accs) ==> a in accs
    ensures Parseable(accs) != [] ==> NumericOrder(accs) != []
  {
    NumericOrderPermutes(accs);
    ParseableSub(accs);
    forall a | a in NumericOrder(accs) ensures a in accs {
      assert a in multiset(NumericOrder(accs));
    }
    if Parseable(accs) != [] {
      assert Parseable(accs)[0] in multiset(NumericOrder(accs));
    }
  }

  /** The merged name of a group of plain accessions is plain. */
  lemma MergedNamePlain(accs: seq<string>)
    requires forall a :: a in accs ==> Plain(a)
    ensures Plain(MergedName(accs))
  {
    var ordered := NumericOrder(accs);
    NumericOrderFromGroup(accs);
    assert forall i :: 0 <= i < |ordered| ==> ordered[i] in accs;
    JoinPlain(ordered, "|");
  }

  /** `base_map` sends the merged name of an aggregated row that the merge kept
      to that row's base accession, since the base accession is a function of
      the merged name. */
  lemma BaseMapFinds(aggs: seq<Aggregated>, orfs: seq<OrfRow>, agg: Aggregated, j: nat)
    requires agg in aggs && j < |orfs| && orfs[j].pbAcc == agg.baseAcc
    requires forall x :: x in aggs ==> x.pbAccs != [] && x.baseAcc == Split(x.pbAccs, "|")[0]
    ensures agg.pbAccs in BaseMap(MergeOnBase(aggs, orfs))
    ensures BaseMap(MergeOnBase(aggs, orfs))[agg.pbAccs] == agg.baseAcc
  {
    var merged := MergeOnBase(aggs, orfs);
    MergeOnBaseMembers(aggs, orfs);
    assert MergedRow(agg, orfs[j]) in merged;
    var pairs := seq(|merged|, i requires 0 <= i < |merged| => (merged[i].agg.pbAccs, merged[i].agg.baseAcc));
    var m :| 0 <= m < |merged| && merged[m] == MergedRow(agg, orfs[j]);
    assert pairs[m].0 == agg.pbAccs;
    LastWinsKeys(pairs);
    LastWinsValue(pairs, agg.pbAccs);
    var q :| 0 <= q < |pairs| && pairs[q].0 == agg.pbAccs && pairs[q].1 == BaseMap(merged)[agg.pbAccs];
    assert merged[q] in merged;
  }

  lemma GeneMapHas(orfs: seq<OrfRow>, j: nat)
    requires j < |orfs|
    ensures orfs[j].pbAcc in GeneMap(orfs)
  {
    var genePairs := seq(|orfs|, i requires 0 <= i < |orfs| => (orfs[i].pbAcc, orfs[i].gene));
    assert genePairs[j].0 == orfs[j].pbAcc;
    LastWinsKeys(genePairs);
  }

  /** The FASTA step's lookups succeed for the record of a group whose merged
      name is not empty: `base_map` finds the merged name, it gives the group's
      first ordered accession, and `pb_gene` knows that accession. */
  lemma EmitEntryOk(entry: CombinedEntry, accs: seq<string>, agg: Aggregated, aggs: seq<Aggregated>,
                    orfs: seq<OrfRow>, hasGene: bool)
    requires entry.pbAccs == MergedName(accs) && Parseable(accs) != []
    requires forall a :: a in accs ==> '|' !in a && Plain(a)
    requires forall a :: a in accs ==> exists j :: 0 <= j < |orfs| && orfs[j].pbAcc == a
    requires agg in aggs && entry.pbAccs != [] && agg == AggregateEntry(entry, orfs)
    requires forall x :: x in aggs ==> x.pbAccs != [] && x.baseAcc == Split(x.pbAccs, "|")[0]
    ensures NumericOrder(accs) != [] && NumericOrder(accs)[0] in GeneMap(orfs)
    ensures EmitEntry(entry, BaseMap(MergeOnBase(aggs, orfs)), GeneMap(orfs), hasGene) ==
              var base := NumericOrder(accs)[0];
              Ok(FastaEntry(RefinedHeader(base, if hasGene then Some(GeneMap(orfs)[base]) else None), entry.protein))
  {
    AggregateOfMerged(entry.protein, accs, orfs);
    NumericOrderFromGroup(accs);
    var base := NumericOrder(accs)[0];
    assert base in accs;
    var j :| 0 <= j < |orfs| && orfs[j].pbAcc == base;
    BaseMapFinds(aggs, orfs, agg, j);
    GeneMapHas(orfs, j);
    MergedNamePlain(accs);
    FastaIdPlain(entry.pbAccs);
  }

  /** Every accession of a protein's group is the accession of an admitted row,
      has a transcript sequence, contains no `|` and, when the FASTA identifiers
      are plain, no white space. */
  lemma GroupMembersFacts(records: seq<FastaRecord>, rows: seq<OrfRow>, translate: string -> string, p: string)
    requires AllSequenced(rows, FirstSeqs(records))
    requires p in GroupRows(rows, FirstSeqs(records), translate).members
    ensures forall a :: a in GroupRows(rows, FirstSeqs(records), translate).members[p] ==>
              && (exists j :: 0 <= j < |rows| && rows[j].pbAcc == a)
              && '|' !in a
              && (PlainIds(records) ==> Plain(a))
  {
    var pbSeqs := FirstSeqs(records);
    GroupRowsMembers(rows, pbSeqs, translate);
    CollapsedMembers(rows, pbSeqs, translate, p);
    forall a | a in GroupRows(rows, pbSeqs, translate).members[p]
      ensures && (exists j :: 0 <= j < |rows| && rows[j].pbAcc == a)
              && '|' !in a
              && (PlainIds(records) ==> Plain(a))
    {
      assert a in Collapsed(rows, pbSeqs, translate, p);
      var i :| 0 <= i < |rows| && rows[i].pbAcc == a && Protein(rows[i], pbSeqs, translate) == p;
      assert a in Accessions(records);
      var k :| 0 <= k < |records| && Accessions(records)[k] == a;
      AccessionHasNoBar(records[k]);
      if PlainIds(records) {
        AccessionsPlain(records, a);
      }
    }
  }

  /** The refined FASTA entry of the `i`-th protein: headed by its group's first
      ordered accession and that accession's gene. */
  predicate EntryOfGroup(e: FastaEntry, groups: ProteinGroups, i: nat, orfs: seq<OrfRow>, hasGene: bool)
  {
    && i < |groups.order| && groups.order[i] in groups.members
    && var ordered := NumericOrder(groups.members[groups.order[i]]);
    && ordered != [] && ordered[0] in GeneMap(orfs)
    && e == FastaEntry(RefinedHeader(ordered[0], if hasGene then Some(GeneMap(orfs)[ordered[0]]) else None),
                       groups.order[i])
  }

  /** With plain identifiers and no empty merged name, the FASTA step's lookups
      all succeed and each record yields the entry of its group. */
  lemma FastaOfGroups(records: seq<FastaRecord>, rows: seq<OrfRow>, translate: string -> string,
                      aggs: seq<Aggregated>, hasGene: bool)
    requires AllSequenced(rows, FirstSeqs(records)) && PlainIds(records)
    requires WellFormed(GroupRows(rows, FirstSeqs(records), translate))
    requires var combined := CombinedOf(GroupRows(rows, FirstSeqs(records), translate));
             && |aggs| == |combined|
             && forall i :: 0 <= i < |combined| ==> combined[i].pbAccs != [] && aggs[i] == AggregateEntry(combined[i], rows)
    ensures var groups := GroupRows(rows, FirstSeqs(records), translate);
            var combined := CombinedOf(groups);
            forall i :: 0 <= i < |combined| ==>
              && EmitEntry(combined[i], BaseMap(MergeOnBase(aggs, rows)), GeneMap(rows), hasGene).Ok?
              && EntryOfGroup(EmitEntry(combined[i], BaseMap(MergeOnBase(aggs, rows)), GeneMap(rows), hasGene).value,
                              groups, i, rows, hasGene)
  {
    var groups := GroupRows(rows, FirstSeqs(records), translate);
    var combined := CombinedOf(groups);
    forall x | x in aggs ensures x.pbAccs != [] && x.baseAcc == Split(x.pbAccs, "|")[0] {
      var k :| 0 <= k < |aggs| && aggs[k] == x;
    }
    forall i | 0 <= i < |combined|
      ensures && EmitEntry(combined[i], BaseMap(MergeOnBase(aggs, rows)), GeneMap(rows), hasGene).Ok?
              && EntryOfGroup(EmitEntry(combined[i], BaseMap(MergeOnBase(aggs, rows)), GeneMap(rows), hasGene).value,
                              groups, i, rows, hasGene)
    {
      var accs := groups.members[groups.order[i]];
      GroupMembersFacts(records, rows, translate, groups.order[i]);
      MergedNameEmpty(accs);
      assert aggs[i] in aggs;
      EmitEntryOk(combined[i], accs, aggs[i], aggs, rows, hasGene);
    }
  }

  /** With plain identifiers and no empty merged name, the FASTA loop raises
      nothing and writes the entry of each protein's group, in order. */
  lemma FastaComplete(records: seq<FastaRecord>, rows: seq<OrfRow>, translate: string -> string, hasGene: bool)
    requires AllSequenced(rows, FirstSeqs(records)) && PlainIds(records)
    requires WellFormed(GroupRows(rows, FirstSeqs(records), translate))
    requires NoEmptyName(CombinedOf(GroupRows(rows, FirstSeqs(records), translate)))
    ensures var groups := GroupRows(rows, FirstSeqs(records), translate);
            var combined := CombinedOf(groups);
            var (fasta, err) := EmitAll(combined, BaseMap(MergeOnBase(AggregateAll(combined, rows), rows)), GeneMap(rows), hasGene);
            && err.None? && |fasta| == |groups.order|
            && forall i :: 0 <= i < |fasta| ==> EntryOfGroup(fasta[i], groups, i, rows, hasGene)
  {
    var groups := GroupRows(rows, FirstSeqs(records), translate);
    var combined := CombinedOf(groups);
    var aggs := AggregateAll(combined, rows);
    var merged := MergeOnBase(aggs, rows);
    FastaOfGroups(records, rows, translate, aggs, hasGene);
    WriteUntilErrorComplete(combined, (entry: CombinedEntry) => EmitEntry(entry, BaseMap(merged), GeneMap(rows), hasGene));
  }

  /** `main` from the admission filter to the refined FASTA and table. An
      admitted row without a transcript sequence raises KeyError; a merged-name
      column read as numbers raises AttributeError; otherwise, when the FASTA
      identifiers are plain (as SeqIO makes them), the only other error is the
      TypeError of a group none of whose accessions has a numeric key. The
      refined table is the column selection of the inner merge of the
      aggregated groups with the admitted rows, and the refined FASTA has one
      entry per protein, headed by the group's first ordered accession. */
  method RefineOrfDatabase(records: seq<FastaRecord>, orfs: seq<OrfRow>, cutoff: real,
                           translate: string -> string, hasGene: bool)
    returns (r: Result<Refined>)
    ensures !AllSequenced(Admit(orfs, cutoff), FirstSeqs(records)) ==> r.Err? && r.error.KeyError?
    ensures r.Ok? ==> r.value.redundant == LaterDuplicates(Accessions(records))
    ensures AllSequenced(Admit(orfs, cutoff), FirstSeqs(records)) ==>
              WellFormed(GroupRows(Admit(orfs, cutoff), FirstSeqs(records), translate))
    ensures AllSequenced(Admit(orfs, cutoff), FirstSeqs(records)) ==>
              var admitted := Admit(orfs, cutoff);
              var combined := CombinedOf(GroupRows(admitted, FirstSeqs(records), translate));
              && (r.Err? ==> (r.error.AttributeError? <==> NumericColumn(combined)))
              && (r.Ok? ==>
                    && NoEmptyName(combined)
                    && r.value.table == RefinedRows(MergeOnBase(AggregateAll(combined, admitted), admitted), hasGene))
    ensures AllSequenced(Admit(orfs, cutoff), FirstSeqs(records)) && PlainIds(records) ==>
              var groups := GroupRows(Admit(orfs, cutoff), FirstSeqs(records), translate);
              && (r.Ok? <==> !NumericColumn(CombinedOf(groups)) &&
                             forall p :: p in groups.members ==> Parseable(groups.members[p]) != [])
              && (r.Err? ==> r.error.AttributeError? || r.error.TypeError?)
              && (r.Ok? ==> |r.value.fasta| == |groups.order|)
              && (r.Ok? ==> forall i :: 0 <= i < |r.value.fasta| ==>
                    EntryOfGroup(r.value.fasta[i], groups, i, Admit(orfs, cutoff), hasGene))
  {
    var admitted := Admit(orfs, cutoff);
    var pbSeqs, redundant := GetAccessionSeqs(records);
    var grouped := CombineBySequence(admitted, pbSeqs, translate);
    if grouped.Err? {
      return Err(grouped.error);
    }
    var groups := grouped.value;
    GroupRowsOrder(admitted, pbSeqs, translate);
    var combined := WriteCombined(groups);
    CombinedOfEmpty(groups);
    var aggregated := AggregateResults(combined, admitted);
    if aggregated.Err? {
      return Err(aggregated.error);
    }
    var merged := MergeOnBase(aggregated.value, admitted);
    var fasta, err := WriteRefinedFasta(combined, merged, admitted, hasGene);
    if PlainIds(records) {
      FastaComplete(records, admitted, translate, hasGene);
    }
    if err.Some? {
      return Err(err.value);
    }
    return Ok(Refined(redundant, RefinedRows(merged, hasGene), fasta));
  }

}
