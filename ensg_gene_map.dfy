/** The extraction of the ENSG-to-gene-name map from a GENCODE GTF. Every
    `gene` row sets the variables `ensg` and `gene_name` from its attribute
    column and records `ensg_to_genename[ensg] = gene_name`; a later row with
    the same ENSG overwrites the name but keeps the ENSG's place, and the map
    is written as one `ENSG \t name` line per ENSG, in the order the ENSGs
    first appeared. */
module EnsgGeneMap {
  import opened Wrappers
  import opened Text
  import opened Collections
  import PogoIds

  // ---------------------------------------------------------------------------
  // The attribute loop
  // ---------------------------------------------------------------------------

  /** The two variables the attribute loop assigns. They are not reset between
      rows, so a row that lacks an attribute keeps the previous row's value;
      None until first assigned. */
  datatype Vars = Vars(ensg: Option<string>, geneName: Option<string>)

  /** `attr.split('"')[1]`: the text between the first two double quotes. */
  function Quoted(attr: string): Result<string>
  {
    var pieces := Split(attr, "\"");
    if |pieces| < 2 then Err(IndexError("list index out of range")) else Ok(pieces[1])
  }

  /** One pass of the attribute loop: the stripped attribute sets `ensg` when
      it starts with `gene_id`, otherwise `gene_name` when it starts with
      `gene_name`, and leaves both alone otherwise. */
  function AttrStep(v: Vars, attr: string): Result<Vars>
  {
    var a := Strip(attr);
    if StartsWith(a, "gene_id") then
      match Quoted(a)
      case Err(e) => Err(e)
      case Ok(q) => Ok(v.(ensg := Some(q)))
    else if StartsWith(a, "gene_name") then
      match Quoted(a)
      case Err(e) => Err(e)
      case Ok(q) => Ok(v.(geneName := Some(q)))
    else Ok(v)
  }

  /** The attribute loop over `attrs`, stopping at the first exception. */
  function AttrsStep(v: Vars, attrs: seq<string>): Result<Vars>
  {
    if attrs == [] then Ok(v)
    else
      match AttrsStep(v, attrs[..|attrs| - 1])
      case Err(e) => Err(e)
      case Ok(w) => AttrStep(w, attrs[|attrs| - 1])
  }

  /** Once the attribute loop has raised, the later attributes change nothing. */
  lemma {:induction false} AttrsErrorStays(v: Vars, attrs: seq<string>, j: nat)
    requires j <= |attrs| && AttrsStep(v, attrs[..j]).Err?
    ensures AttrsStep(v, attrs) == AttrsStep(v, attrs[..j])
  {
    if j < |attrs| {
      var init := attrs[..|attrs| - 1];
      assert init[..j] == attrs[..j];
      AttrsErrorStays(v, init, j);
    } else {
      assert attrs[..j] == attrs;
    }
  }

  /** The attribute loop. */
  method ReadAttributes(v: Vars, attributes: seq<string>) returns (r: Result<Vars>)
    ensures r == AttrsStep(v, attributes)
  {
    var ensg, geneName := v.ensg, v.geneName;
    for j := 0 to |attributes|
      invariant AttrsStep(v, attributes[..j]) == Ok(Vars(ensg, geneName))
    {
      assert attributes[..j + 1][..j] == attributes[..j];
      var attr := Strip(attributes[j]);
      if StartsWith(attr, "gene_id") {
        var pieces := Split(attr, "\"");
        if |pieces| < 2 {
          AttrsErrorStays(v, attributes, j + 1);
          return Err(IndexError("list index out of range"));
        }
        ensg := Some(pieces[1]);
      } else if StartsWith(attr, "gene_name") {
        var pieces := Split(attr, "\"");
        if |pieces| < 2 {
          AttrsErrorStays(v, attributes, j + 1);
          return Err(IndexError("list index out of range"));
        }
        geneName := Some(pieces[1]);
      }
    }
    assert attributes[..|attributes|] == attributes;
    return Ok(Vars(ensg, geneName));
  }

  /** A row without a `gene_name` attribute leaves `gene_name` as the previous
      row set it: its ENSG is recorded under the previous gene's name. */
  lemma {:induction false} AttrsKeepName(v: Vars, attrs: seq<string>)
    requires forall i :: 0 <= i < |attrs| ==> !StartsWith(Strip(attrs[i]), "gene_name")
    ensures AttrsStep(v, attrs).Ok? ==> AttrsStep(v, attrs).value.geneName == v.geneName
  {
    if attrs != [] {
      var init := attrs[..|attrs| - 1];
      assert forall i :: 0 <= i < |init| ==> init[i] == attrs[i];
      AttrsKeepName(v, init);
    }
  }

  /** An attribute as GENCODE writes it: a key, a space and a quoted value. */
  function AttrText(key: string, value: string): string
  {
    key + " \"" + value + "\""
  }

  /** An attribute with a quote-free key and value reads back as its value. */
  lemma QuotedAttr(key: string, value: string)
    requires '"' !in key && '"' !in value
    ensures Quoted(AttrText(key, value)) == Ok(value)
  {
    var k := key + " ";
    assert '"' !in k;
    assert AttrText(key, value) == k + ['"'] + value + ['"'] + [];
    SplitTriple(k, value, [], '"');
  }

  /** Stripping a GENCODE attribute, with or without the space that follows a `;`. */
  lemma StripAttr(key: string, value: string, lead: string)
    requires key != [] && key[0] !in Whitespace
    requires lead == [] || lead == " "
    ensures Strip(lead + AttrText(key, value)) == AttrText(key, value)
  {
    var t := AttrText(key, value);
    assert t[0] == key[0] && t[|t| - 1] == '"';
    if lead == [] {
      assert lead + t == t;
    } else {
      assert (lead + t)[1..] == t;
    }
    StripUnchanged(t, Whitespace);
  }

  /** The attribute column of a GENCODE gene row, reduced to its gene_id, gene_type and gene_name. */
  function GencodeAttrs(ensg: string, geneType: string, name: string): string
  {
    AttrText("gene_id", ensg) + "; " + AttrText("gene_type", geneType) + "; " + AttrText("gene_name", name) + ";"
  }

  /** The `;`-pieces of such a column. */
  lemma GencodePieces(ensg: string, geneType: string, name: string)
    requires ';' !in ensg && ';' !in geneType && ';' !in name
    ensures Split(GencodeAttrs(ensg, geneType, name), ";") ==
              [AttrText("gene_id", ensg), " " + AttrText("gene_type", geneType), " " + AttrText("gene_name", name), ""]
  {
    var parts := [AttrText("gene_id", ensg), " " + AttrText("gene_type", geneType), " " + AttrText("gene_name", name), ""];
    assert Join(parts[3..], ";") == "";
    assert Join(parts[2..], ";") == parts[2] + ";" + "";
    assert Join(parts[1..], ";") == parts[1] + ";" + Join(parts[2..], ";");
    assert Join(parts, ";") == parts[0] + ";" + Join(parts[1..], ";");
    assert Join(parts, ";") == GencodeAttrs(ensg, geneType, name);
    SplitJoin(parts, ';');
  }

  /** An attribute that strips to `t`, a `gene_id` attribute quoting `q`, sets `ensg` to `q`. */
  lemma AttrStepSetsEnsg(v: Vars, attr: string, t: string, q: string)
    requires Strip(attr) == t && StartsWith(t, "gene_id") && Quoted(t) == Ok(q)
    ensures AttrStep(v, attr) == Ok(v.(ensg := Some(q)))
  {
  }

  /** An attribute that strips to `t`, a `gene_name` attribute quoting `q`, sets `gene_name` to `q`. */
  lemma AttrStepSetsName(v: Vars, attr: string, t: string, q: string)
    requires Strip(attr) == t && !StartsWith(t, "gene_id") && StartsWith(t, "gene_name") && Quoted(t) == Ok(q)
    ensures AttrStep(v, attr) == Ok(v.(geneName := Some(q)))
  {
  }

  /** An attribute that strips to neither a `gene_id` nor a `gene_name` attribute changes nothing. */
  lemma AttrStepSetsNothing(v: Vars, attr: string, t: string)
    requires Strip(attr) == t && !StartsWith(t, "gene_id") && !StartsWith(t, "gene_name")
    ensures AttrStep(v, attr) == Ok(v)
  {
  }

  /** An attribute text starts with its key, and agrees with it position by position. */
  lemma AttrTextKey(key: string, value: string)
    ensures StartsWith(AttrText(key, value), key)
    ensures |AttrText(key, value)| > |key| && forall i :: 0 <= i < |key| ==> AttrText(key, value)[i] == key[i]
  {
    assert AttrText(key, value) == key + (" \"" + value + "\"");
    StartsWithConcat(key, " \"" + value + "\"");
  }

  /** A GENCODE `gene_id` attribute sets `ensg`. */
  lemma AttrStepGeneId(v: Vars, ensg: string)
    requires '"' !in ensg
    ensures AttrStep(v, AttrText("gene_id", ensg)) == Ok(v.(ensg := Some(ensg)))
  {
    var t := AttrText("gene_id", ensg);
    StripAttr("gene_id", ensg, []);
    assert [] + t == t;
    QuotedAttr("gene_id", ensg);
    AttrTextKey("gene_id", ensg);
    AttrStepSetsEnsg(v, t, t, ensg);
  }

  /** A GENCODE `gene_type` attribute after `; ` changes neither variable. */
  lemma AttrStepGeneType(v: Vars, geneType: string)
    ensures AttrStep(v, " " + AttrText("gene_type", geneType)) == Ok(v)
  {
    var t := AttrText("gene_type", geneType);
    StripAttr("gene_type", geneType, " ");
    AttrTextKey("gene_type", geneType);
    NotStartsWithAt(t, "gene_id", 5);
    NotStartsWithAt(t, "gene_name", 5);
    AttrStepSetsNothing(v, " " + t, t);
  }

  /** A GENCODE `gene_name` attribute after `; ` sets `gene_name`. */
  lemma AttrStepGeneName(v: Vars, name: string)
    requires '"' !in name
    ensures AttrStep(v, " " + AttrText("gene_name", name)) == Ok(v.(geneName := Some(name)))
  {
    var t := AttrText("gene_name", name);
    AttrTextKey("gene_name", name);
    assert t[5] == 'n';
    NotStartsWithAt(t, "gene_id", 5);
    QuotedAttr("gene_name", name);
    StripAttr("gene_name", name, " ");
    AttrStepSetsName(v, " " + t, t, name);
  }

  /** One more attribute: the loop over a longer prefix. */
  lemma AttrsStepPrefix(v: Vars, attrs: seq<string>, n: nat)
    requires 0 < n <= |attrs|
    ensures AttrsStep(v, attrs[..n]) ==
              match AttrsStep(v, attrs[..n - 1])
              case Err(e) => Err(e)
              case Ok(w) => AttrStep(w, attrs[n - 1])
  {
    assert attrs[..n][..n - 1] == attrs[..n - 1];
  }

  /** Reading such a column sets `ensg` and `gene_name` to the row's own values. */
  lemma GencodeRowVars(v: Vars, ensg: string, geneType: string, name: string)
    requires ';' !in ensg && ';' !in geneType && ';' !in name
    requires '"' !in ensg && '"' !in geneType && '"' !in name
    ensures AttrsStep(v, Split(GencodeAttrs(ensg, geneType, name), ";")) == Ok(Vars(Some(ensg), Some(name)))
  {
    var attrs := Split(GencodeAttrs(ensg, geneType, name), ";");
    GencodePieces(ensg, geneType, name);
    GencodeFirstTwo(v, attrs, ensg, geneType);
    GencodeLastTwo(v, attrs, v.(ensg := Some(ensg)), name);
  }

  /** The `gene_id` and `gene_type` pieces set `ensg`. */
  lemma GencodeFirstTwo(v: Vars, attrs: seq<string>, ensg: string, geneType: string)
    requires '"' !in ensg
    requires |attrs| >= 2 && attrs[0] == AttrText("gene_id", ensg) && attrs[1] == " " + AttrText("gene_type", geneType)
    ensures AttrsStep(v, attrs[..2]) == Ok(v.(ensg := Some(ensg)))
  {
    var v1 := v.(ensg := Some(ensg));
    assert attrs[..0] == [];
    assert AttrsStep(v, attrs[..1]) == Ok(v1) by {
      AttrStepGeneId(v, ensg);
      AttrsStepPrefix(v, attrs, 1);
    }
    AttrStepGeneType(v1, geneType);
    AttrsStepPrefix(v, attrs, 2);
  }

  /** The `gene_name` piece and the empty piece after the last `;` set `gene_name`. */
  lemma GencodeLastTwo(v: Vars, attrs: seq<string>, w: Vars, name: string)
    requires '"' !in name
    requires |attrs| == 4 && AttrsStep(v, attrs[..2]) == Ok(w)
    requires attrs[2] == " " + AttrText("gene_name", name) && attrs[3] == ""
    ensures AttrsStep(v, attrs) == Ok(w.(geneName := Some(name)))
  {
    var w2 := w.(geneName := Some(name));
    assert AttrsStep(v, attrs[..3]) == Ok(w2) by {
      AttrStepGeneName(w, name);
      AttrsStepPrefix(v, attrs, 3);
    }
    AttrStepSetsNothing(w2, "", "");
    assert attrs[..|attrs| - 1] == attrs[..3];
  }

  // ---------------------------------------------------------------------------
  // The row loop
  // ---------------------------------------------------------------------------

  /** What the row loop has done so far: the two variables and the assignments
      `ensg_to_genename[ensg] = gene_name` it made, in order. */
  datatype Scan = Scan(vars: Vars, recorded: seq<(string, string)>)

  /** A row the loop reads as a gene row: not a `#` comment, and `gene` in its third tab field. */
  predicate IsGeneRow(line: string)
  {
    var fields := Split(Strip(line), "\t");
    !StartsWith(line, "#") && |fields| >= 3 && fields[2] == "gene"
  }

  /** One pass of the row loop: comments are skipped, the others are cut into
      tab fields. */
  function LineStep(s: Scan, line: string): Result<Scan>
  {
    if StartsWith(line, "#") then Ok(s) else FieldsStep(s, Split(Strip(line), "\t"))
  }

  /** A row with fewer than three tab fields raises IndexError, a row whose
      third field is not `gene` is passed over, and a gene row with fewer
      than nine fields raises IndexError too. */
  function FieldsStep(s: Scan, fields: seq<string>): Result<Scan>
  {
    if |fields| < 3 then Err(IndexError("list index out of range"))
    else if fields[2] != "gene" then Ok(s)
    else if |fields| < 9 then Err(IndexError("list index out of range"))
    else GeneRowStep(s, fields[8])
  }

  /** A gene row: the attribute loop over its `;`-pieces, then the assignment;
      a row that leaves `gene_name` or `ensg` unset raises NameError (the
      right-hand side, `gene_name`, is evaluated first). */
  function GeneRowStep(s: Scan, column: string): Result<Scan>
  {
    match AttrsStep(s.vars, Split(column, ";"))
    case Err(e) => Err(e)
    case Ok(v) =>
      if v.geneName.None? then Err(NameError("gene_name"))
      else if v.ensg.None? then Err(NameError("ensg"))
      else Ok(Scan(v, s.recorded + [(v.ensg.value, v.geneName.value)]))
  }

  /** The row loop over `lines`, stopping at the first exception. */
  function ScanAll(lines: seq<string>): Result<Scan>
  {
    if lines == [] then Ok(Scan(Vars(None, None), []))
    else
      match ScanAll(lines[..|lines| - 1])
      case Err(e) => Err(e)
      case Ok(s) => LineStep(s, lines[|lines| - 1])
  }

  /** Once the row loop has raised, the later rows change nothing. */
  lemma {:induction false} ScanErrorStays(lines: seq<string>, i: nat)
    requires i <= |lines| && ScanAll(lines[..i]).Err?
    ensures ScanAll(lines) == ScanAll(lines[..i])
  {
    if i < |lines| {
      var init := lines[..|lines| - 1];
      assert init[..i] == lines[..i];
      ScanErrorStays(init, i);
    } else {
      assert lines[..i] == lines;
    }
  }

  /** A row adds one assignment to the record when it is a gene row, and
      none otherwise; earlier assignments stay as they were. */
  lemma LineStepRecords(s: Scan, line: string)
    requires LineStep(s, line).Ok?
    ensures var r := LineStep(s, line).value.recorded;
            if IsGeneRow(line) then |r| == |s.recorded| + 1 && r[..|s.recorded|] == s.recorded
            else r == s.recorded
  {
    if !StartsWith(line, "#") {
      var fields := Split(Strip(line), "\t");
      assert LineStep(s, line) == FieldsStep(s, fields);
      FieldsStepRecords(s, fields);
    }
  }

  /** `LineStepRecords` once the row is cut into fields. */
  lemma FieldsStepRecords(s: Scan, fields: seq<string>)
    requires FieldsStep(s, fields).Ok?
    ensures var r := FieldsStep(s, fields).value.recorded;
            if |fields| >= 3 && fields[2] == "gene" then |r| == |s.recorded| + 1 && r[..|s.recorded|] == s.recorded
            else r == s.recorded
  {
    if |fields| >= 3 && fields[2] == "gene" {
      var r := GeneRowStep(s, fields[8]).value.recorded;
      assert r[..|s.recorded|] == s.recorded;
    }
  }

  /** The number of gene rows among `lines`. */
  function GeneRows(lines: seq<string>): nat
  {
    if lines == [] then 0
    else GeneRows(lines[..|lines| - 1]) + if IsGeneRow(lines[|lines| - 1]) then 1 else 0
  }

  /** Only gene rows assign, and each assigns once. */
  lemma {:induction false} AssignedPerGeneRow(lines: seq<string>)
    requires ScanAll(lines).Ok?
    ensures |ScanAll(lines).value.recorded| == GeneRows(lines)
  {
    if lines != [] {
      var init := lines[..|lines| - 1];
      AssignedPerGeneRow(init);
      LineStepRecords(ScanAll(init).value, lines[|lines| - 1]);
    }
  }

  /** A GENCODE gene row records its own gene_id against its own gene_name. */
  lemma GencodeRowAssigns(s: Scan, line: string, ensg: string, geneType: string, name: string)
    requires !StartsWith(line, "#")
    requires var fields := Split(Strip(line), "\t");
             |fields| >= 9 && fields[2] == "gene" && fields[8] == GencodeAttrs(ensg, geneType, name)
    requires ';' !in ensg && ';' !in geneType && ';' !in name
    requires '"' !in ensg && '"' !in geneType && '"' !in name
    ensures LineStep(s, line) == Ok(Scan(Vars(Some(ensg), Some(name)), s.recorded + [(ensg, name)]))
  {
    GencodeRowVars(s.vars, ensg, geneType, name);
  }

  /** A gene row without a `gene_name` attribute records its ENSG under the
      name the previous gene row set. */
  lemma StaleGeneName(s: Scan, column: string)
    requires GeneRowStep(s, column).Ok?
    requires forall i :: 0 <= i < |Split(column, ";")| ==> !StartsWith(Strip(Split(column, ";")[i]), "gene_name")
    ensures s.vars.geneName.Some?
    ensures var r := GeneRowStep(s, column).value.recorded; r[|r| - 1].1 == s.vars.geneName.value
  {
    AttrsKeepName(s.vars, Split(column, ";"));
  }

  // ---------------------------------------------------------------------------
  // The written map
  // ---------------------------------------------------------------------------

  /** The ENSGs of the assignments, in order. */
  function Firsts(recorded: seq<(string, string)>): (r: seq<string>)
    ensures |r| == |recorded| && forall i :: 0 <= i < |r| ==> r[i] == recorded[i].0
  {
    seq(|recorded|, i requires 0 <= i < |recorded| => recorded[i].0)
  }

  /** The ENSGs that were assigned are exactly the dictionary's keys. */
  lemma OrderIsKeys(recorded: seq<(string, string)>)
    ensures forall e :: e in Firsts(recorded) <==> e in LastWins(recorded)
  {
    var f := Firsts(recorded);
    forall e ensures e in f <==> e in LastWins(recorded) {
      if e in f {
        var i :| 0 <= i < |f| && f[i] == e;
        assert recorded[i].0 == e;
      }
    }
  }

  /** The dictionary's key order: each ENSG once, where it was first assigned. */
  function KeyOrder(recorded: seq<(string, string)>): (r: seq<string>)
    ensures forall i, j :: 0 <= i < j < |r| ==> r[i] != r[j]
    ensures forall e :: e in r <==> e in LastWins(recorded)
  {
    OrderIsKeys(recorded);
    FirstAppearance(Firsts(recorded))
  }

  /** A new assignment puts a new ENSG at the end of the key order and leaves
      the order alone for an ENSG already there. */
  lemma KeyOrderSnoc(recorded: seq<(string, string)>, e: string, name: string)
    ensures KeyOrder(recorded + [(e, name)]) ==
              if e in LastWins(recorded) then KeyOrder(recorded) else KeyOrder(recorded) + [e]
  {
    var f := Firsts(recorded + [(e, name)]);
    assert f[..|recorded|] == Firsts(recorded);
  }

  /** The written lines: one `ENSG \t name` line per key, in key order. */
  function OutputLines(recorded: seq<(string, string)>): seq<string>
  {
    MapLines(KeyOrder(recorded), LastWins(recorded))
  }

  /** One `key \t value` line per key of `order`, in that order. */
  function MapLines(order: seq<string>, m: map<string, string>): seq<string>
    requires forall e :: e in order ==> e in m
  {
    seq(|order|, i requires 0 <= i < |order| => order[i] + "\t" + m[order[i]] + "\n")
  }

  /** The whole script: the written lines, or the exception that stops it
      before anything is written. */
  function Extract(lines: seq<string>): Result<seq<string>>
  {
    match ScanAll(lines)
    case Err(e) => Err(e)
    case Ok(s) => Ok(OutputLines(s.recorded))
  }

  /** The body of the row loop for one line: the exception it raises, nothing
      for a line it passes over, or the variables a gene row leaves, both
      set, to be recorded. */
  method ReadLine(vars: Vars, line: string, ghost recorded: seq<(string, string)>) returns (r: Result<Option<Vars>>)
    ensures var step := LineStep(Scan(vars, recorded), line);
            match r
            case Err(e) => step == Err(e)
            case Ok(None) => step == Ok(Scan(vars, recorded))
            case Ok(Some(v)) =>
              v.ensg.Some? && v.geneName.Some? &&
              step == Ok(Scan(v, recorded + [(v.ensg.value, v.geneName.value)]))
  {
    ghost var s := Scan(vars, recorded);
    if StartsWith(line, "#") {
      return Ok(None);
    }
    var fields := Split(Strip(line), "\t");
    assert LineStep(s, line) == FieldsStep(s, fields);
    if |fields| < 3 {
      return Err(IndexError("list index out of range"));
    }
    if fields[2] != "gene" {
      return Ok(None);
    }
    if |fields| < 9 {
      return Err(IndexError("list index out of range"));
    }
    assert FieldsStep(s, fields) == GeneRowStep(s, fields[8]);
    var v := ReadAttributes(vars, Split(fields[8], ";"));
    if v.Err? {
      return Err(v.error);
    }
    if v.value.geneName.None? {
      return Err(NameError("gene_name"));
    }
    if v.value.ensg.None? {
      return Err(NameError("ensg"));
    }
    return Ok(Some(v.value));
  }

  /** The script: the row loop, then the loop that writes the map. */
  method ExtractEnsgToGeneName(lines: seq<string>) returns (r: Result<seq<string>>)
    ensures r == Extract(lines)
  {
    var ensg: Option<string> := None;
    var geneName: Option<string> := None;
    var ensgToGenename: map<string, string> := map[];
    var order: seq<string> := [];
    ghost var recorded: seq<(string, string)> := [];
    for i := 0 to |lines|
      invariant ScanAll(lines[..i]) == Ok(Scan(Vars(ensg, geneName), recorded))
      invariant ensgToGenename == LastWins(recorded)
      invariant order == KeyOrder(recorded)
    {
      assert lines[..i + 1][..i] == lines[..i];
      var row := ReadLine(Vars(ensg, geneName), lines[i], recorded);
      if row.Err? {
        ScanErrorStays(lines, i + 1);
        return Err(row.error);
      }
      if row.value.Some? {
        ensg, geneName := row.value.value.ensg, row.value.value.geneName;
        KeyOrderSnoc(recorded, ensg.value, geneName.value);
        LastWinsSnoc(recorded, ensg.value, geneName.value);
        if ensg.value !in ensgToGenename {
          order := order + [ensg.value];
        }
        ensgToGenename := ensgToGenename[ensg.value := geneName.value];
        recorded := recorded + [(ensg.value, geneName.value)];
      }
    }
    assert lines[..|lines|] == lines;
    assert Extract(lines) == Ok(OutputLines(recorded));
    var out := WriteMap(order, ensgToGenename);
    return Ok(out);
  }

  /** The loop that writes the dictionary, one line per key in key order. */
  method WriteMap(order: seq<string>, m: map<string, string>) returns (out: seq<string>)
    requires forall e :: e in order ==> e in m
    ensures out == MapLines(order, m)
  {
    out := [];
    for k := 0 to |order|
      invariant out == MapLines(order, m)[..k]
    {
      out := out + [order[k] + "\t" + m[order[k]] + "\n"];
    }
  }

  // ---------------------------------------------------------------------------
  // Properties of the written map
  // ---------------------------------------------------------------------------

  /** The value under a key is the value of the key's last assignment. */
  lemma {:induction false} LastAssignment(recorded: seq<(string, string)>, e: string)
    requires e in LastWins(recorded)
    ensures exists k :: 0 <= k < |recorded| && recorded[k] == (e, LastWins(recorded)[e]) &&
              forall m :: k < m < |recorded| ==> recorded[m].0 != e
  {
    var n := |recorded| - 1;
    if recorded[n].0 == e {
      assert recorded[n] == (e, LastWins(recorded)[e]);
    } else {
      var init := recorded[..n];
      assert LastWins(recorded)[e] == LastWins(init)[e];
      LastAssignment(init, e);
      var k :| 0 <= k < |init| && init[k] == (e, LastWins(init)[e]) &&
                forall m :: k < m < |init| ==> init[m].0 != e;
      assert recorded[k] == init[k];
      assert forall m :: k < m < n ==> recorded[m] == init[m];
    }
  }

  /** One line per ENSG ever assigned, each ENSG once, carrying the name of
      the last row that assigned it. */
  lemma OutputOnePerEnsg(recorded: seq<(string, string)>)
    ensures var order := KeyOrder(recorded);
            && |OutputLines(recorded)| == |order|
            && (forall e :: e in order <==> exists k :: 0 <= k < |recorded| && recorded[k].0 == e)
            && (forall i :: 0 <= i < |order| ==>
                  exists k :: 0 <= k < |recorded| && recorded[k] == (order[i], LastWins(recorded)[order[i]]) &&
                    forall m :: k < m < |recorded| ==> recorded[m].0 != order[i])
  {
    var order := KeyOrder(recorded);
    forall i | 0 <= i < |order|
      ensures exists k :: 0 <= k < |recorded| && recorded[k] == (order[i], LastWins(recorded)[order[i]]) &&
                forall m :: k < m < |recorded| ==> recorded[m].0 != order[i]
    {
      LastAssignment(recorded, order[i]);
    }
  }

  /** No tab in either variable. */
  predicate TabFreeVars(v: Vars)
  {
    (v.ensg.Some? ==> '\t' !in v.ensg.value) && (v.geneName.Some? ==> '\t' !in v.geneName.value)
  }

  /** No tab in the variables nor in any assignment. */
  predicate TabFreeScan(s: Scan)
  {
    TabFreeVars(s.vars) && forall k :: 0 <= k < |s.recorded| ==> '\t' !in s.recorded[k].0 && '\t' !in s.recorded[k].1
  }

  /** A value quoted in a tab-free attribute is tab-free. */
  lemma AttrStepTabFree(v: Vars, attr: string)
    requires TabFreeVars(v) && '\t' !in attr
    ensures AttrStep(v, attr).Ok? ==> TabFreeVars(AttrStep(v, attr).value)
  {
    StripWithout(attr, Whitespace, '\t');
    SplitPiecesWithout(Strip(attr), "\"", '\t');
  }

  /** The attribute loop over tab-free attributes keeps the variables tab-free. */
  lemma {:induction false} AttrsTabFree(v: Vars, attrs: seq<string>)
    requires TabFreeVars(v) && forall i :: 0 <= i < |attrs| ==> '\t' !in attrs[i]
    ensures AttrsStep(v, attrs).Ok? ==> TabFreeVars(AttrsStep(v, attrs).value)
  {
    if attrs != [] {
      var init := attrs[..|attrs| - 1];
      assert forall i :: 0 <= i < |init| ==> init[i] == attrs[i];
      AttrsTabFree(v, init);
      if AttrsStep(v, init).Ok? {
        AttrStepTabFree(AttrsStep(v, init).value, attrs[|attrs| - 1]);
      }
    }
  }

  /** A tab-free attribute column records only tab-free values. */
  lemma GeneRowTabFree(s: Scan, column: string)
    requires TabFreeScan(s) && '\t' !in column
    ensures GeneRowStep(s, column).Ok? ==> TabFreeScan(GeneRowStep(s, column).value)
  {
    SplitPiecesWithout(column, ";", '\t');
    AttrsTabFree(s.vars, Split(column, ";"));
  }

  /** A row's tab fields hold no tab, so neither do the values read from them. */
  lemma LineStepTabFree(s: Scan, line: string)
    requires TabFreeScan(s)
    ensures LineStep(s, line).Ok? ==> TabFreeScan(LineStep(s, line).value)
  {
    if !StartsWith(line, "#") {
      var fields := Split(Strip(line), "\t");
      assert LineStep(s, line) == FieldsStep(s, fields);
      if |fields| >= 9 {
        SplitPiecesFreeChar(Strip(line), '\t');
        GeneRowTabFree(s, fields[8]);
      }
    }
  }

  /** No ENSG and no name the row loop records holds a tab. */
  lemma {:induction false} ScanTabFree(lines: seq<string>)
    requires ScanAll(lines).Ok?
    ensures TabFreeScan(ScanAll(lines).value)
  {
    if lines != [] {
      var init := lines[..|lines| - 1];
      ScanTabFree(init);
      LineStepTabFree(ScanAll(init).value, lines[|lines| - 1]);
    }
  }

  /** Every written line, read by the conversion to PoGo identifiers, gives
      back the gene name against the ENSG without its version. */
  lemma OutputReadsBack(lines: seq<string>, i: nat)
    requires Extract(lines).Ok? && i < |Extract(lines).value|
    ensures var recorded := ScanAll(lines).value.recorded;
            var e := KeyOrder(recorded)[i];
            var name := LastWins(recorded)[e];
            name == [] || (name[0] !in Whitespace && name[|name| - 1] !in Whitespace) ==>
              PogoIds.GeneEnsgEntry(Extract(lines).value[i]) == Ok((name, Split(e, ".")[0]))
  {
    var recorded := ScanAll(lines).value.recorded;
    assert Extract(lines).value == OutputLines(recorded);
    ScanTabFree(lines);
    WrittenReadsBack(recorded, i);
  }

  /** `OutputReadsBack` for the lines written from any tab-free assignments. */
  lemma WrittenReadsBack(recorded: seq<(string, string)>, i: nat)
    requires forall k :: 0 <= k < |recorded| ==> '\t' !in recorded[k].0 && '\t' !in recorded[k].1
    requires i < |KeyOrder(recorded)|
    ensures var e := KeyOrder(recorded)[i];
            var name := LastWins(recorded)[e];
            name == [] || (name[0] !in Whitespace && name[|name| - 1] !in Whitespace) ==>
              PogoIds.GeneEnsgEntry(OutputLines(recorded)[i]) == Ok((name, Split(e, ".")[0]))
  {
    var e := KeyOrder(recorded)[i];
    var name := LastWins(recorded)[e];
    LastWinsValue(recorded, e);
    assert OutputLines(recorded)[i] == e + "\t" + name + "\n";
    if name == [] || (name[0] !in Whitespace && name[|name| - 1] !in Whitespace) {
      PogoIds.GeneEnsgEntryOfWritten(e, name);
    }
  }
}
