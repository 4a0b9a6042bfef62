/**
  The counting part of `analyze_structure_info` (alpha.py:39-70): how many
  ATOM lines a file has, the text of its first HEADER line and of every
  TITLE line (both from the Title Section of the wwPDB Atomic Coordinate
  Entry Format v3.3), the chain identifiers, and the distinct residue
  numbers as they are written.  Nothing is decoded here: a line too short
  for a column is skipped rather than rejected.
*/
module StructureInfo {
  import opened Wrappers
  import opened PyText
  import opened AtomRecord

  const HeaderMarker := "HEADER"
  const TitleMarker := "TITLE"

  /** What the analysis prints, before it is printed. */
  datatype Summary = Summary(numAtoms: nat, header: Option<string>, titles: seq<string>,
                             chains: set<char>, residues: set<string>)

  /** `line[10:].strip()`: the text of a HEADER or TITLE record. */
  function RecordText(line: string): (t: string)
    ensures Trimmed(t)
  {
    Strip(SliceFrom(line, 10))
  }

  /** `[line for line in lines if line.startswith('ATOM')]` */
  function AtomLines(lines: seq<string>): seq<string> {
    KeepPrefixed(lines, AtomMarker)
  }

  /** The text of the first HEADER line, if there is one. */
  function HeaderText(lines: seq<string>): Option<string> {
    var headers := KeepPrefixed(lines, HeaderMarker);
    if |headers| == 0 then None else Some(RecordText(headers[0]))
  }

  /** The text of every TITLE line, in file order. */
  function TitleTexts(lines: seq<string>): (ts: seq<string>)
    ensures |ts| == |KeepPrefixed(lines, TitleMarker)|
  {
    var titles := KeepPrefixed(lines, TitleMarker);
    seq(|titles|, k requires 0 <= k < |titles| => RecordText(titles[k]))
  }

  /** The chain identifier of an ATOM line that reaches column 22. */
  function ChainOf(line: string): Option<char> {
    if |line| > 21 then Some(line[21]) else None
  }

  /** The stripped residue-number text of an ATOM line that reaches past
      column 26, when it is not blank. */
  function ResidueLabelOf(line: string): (r: Option<string>)
    ensures r.Some? ==> |line| > 26 && r.value != "" && Trimmed(r.value)
  {
    if |line| > 26 && Strip(Slice(line, 22, 26)) != "" then Some(Strip(Slice(line, 22, 26))) else None
  }

  /** Every value `f` finds in the lines, as a set. */
  function Present<T(==)>(f: string -> Option<T>, ls: seq<string>): set<T> {
    if |ls| == 0 then {}
    else
      var init := Present(f, ls[..|ls| - 1]);
      match f(ls[|ls| - 1])
      case Some(v) => init + {v}
      case None => init
  }

  /** The chain set after the first `|ls|` ATOM lines. */
  function ChainSet(ls: seq<string>): set<char> {
    Present(ChainOf, ls)
  }

  /** The residue set after the first `|ls|` ATOM lines. */
  function ResidueLabels(ls: seq<string>): set<string> {
    Present(ResidueLabelOf, ls)
  }

  /** One more line adds what `f` finds in it. */
  lemma PresentSnoc<T>(f: string -> Option<T>, ls: seq<string>, i: nat)
    requires i < |ls|
    ensures Present(f, ls[..i + 1]) == if f(ls[i]).Some? then Present(f, ls[..i]) + {f(ls[i]).value} else Present(f, ls[..i])
  {
    assert ls[..i + 1][..i] == ls[..i];
  }

  lemma {:induction false} PresentMembers<T>(f: string -> Option<T>, ls: seq<string>, v: T)
    ensures v in Present(f, ls) <==> exists k :: 0 <= k < |ls| && f(ls[k]) == Some(v)
  {
    if |ls| > 0 {
      var init := ls[..|ls| - 1];
      PresentMembers(f, init, v);
      if exists k :: 0 <= k < |ls| && f(ls[k]) == Some(v) {
        var k :| 0 <= k < |ls| && f(ls[k]) == Some(v);
        if k < |init| {
          assert init[k] == ls[k];
        }
      }
      if v in Present(f, init) {
        var k :| 0 <= k < |init| && f(init[k]) == Some(v);
        assert ls[k] == init[k];
      }
    }
  }

  /** The summary of a file's text. */
  function Summarize(pdbData: string): Summary {
    var lines := Split(pdbData, '\n');
    var atomLines := AtomLines(lines);
    Summary(|atomLines|, HeaderText(lines), TitleTexts(lines), ChainSet(atomLines), ResidueLabels(atomLines))
  }

  /** `analyze_structure_info` without its printing: the line filters, then
      one loop filling the chain set and one filling the residue set. */
  method AnalyzeStructureInfo(pdbData: string) returns (info: Summary)
    ensures info == Summarize(pdbData)
  {
    var lines := Split(pdbData, '\n');
    var atomLines := AtomLines(lines);
    var chains: set<char> := {};
    for i := 0 to |atomLines|
      invariant chains == ChainSet(atomLines[..i])
    {
      var line := atomLines[i];
      PresentSnoc(ChainOf, atomLines, i);
      if |line| > 21 {
        chains := chains + {line[21]};
      }
    }
    assert atomLines[..|atomLines|] == atomLines;
    var residues: set<string> := {};
    for i := 0 to |atomLines|
      invariant residues == ResidueLabels(atomLines[..i])
    {
      var line := atomLines[i];
      PresentSnoc(ResidueLabelOf, atomLines, i);
      if |line| > 26 {
        var resNum := Strip(Slice(line, 22, 26));
        if resNum != "" {
          residues := residues + {resNum};
        }
      }
    }
    info := Summary(|atomLines|, HeaderText(lines), TitleTexts(lines), chains, residues);
  }

  // ---------------------------------------------------------------------
  // What the summary holds

  /** A chain is listed exactly when some ATOM line long enough to have a
      chain column carries it. */
  lemma {:induction false} ChainSetMembers(ls: seq<string>, c: char)
    ensures c in ChainSet(ls) <==> exists k :: 0 <= k < |ls| && |ls[k]| > 21 && ls[k][21] == c
  {
    PresentMembers(ChainOf, ls, c);
  }

  /** A residue label is listed exactly when some ATOM line yields it:
      the line reaches past column 26 and its stripped columns 23-26 are
      that label. */
  lemma {:induction false} ResidueLabelsMembers(ls: seq<string>, r: string)
    ensures r in ResidueLabels(ls) <==> exists k :: 0 <= k < |ls| && ResidueLabelOf(ls[k]) == Some(r)
  {
    PresentMembers(ResidueLabelOf, ls, r);
  }

  /** Labels are never blank and never padded, so `"  12"` and `"12"` are one
      residue; labels that differ only in their digits, such as `"012"` and
      `"12"`, are two. */
  lemma {:induction false} ResidueLabelsTrimmed(ls: seq<string>, r: string)
    requires r in ResidueLabels(ls)
    ensures r != "" && Trimmed(r)
  {
    ResidueLabelsMembers(ls, r);
  }

  /** The first line kept by a filter is the first line that passes it. */
  lemma {:induction false} KeepPrefixedFirst(lines: seq<string>, prefix: string)
    requires |KeepPrefixed(lines, prefix)| > 0
    ensures exists k :: 0 <= k < |lines| && lines[k] == KeepPrefixed(lines, prefix)[0] && StartsWith(lines[k], prefix)
                        && forall j :: 0 <= j < k ==> !StartsWith(lines[j], prefix)
  {
    var init, last := lines[..|lines| - 1], lines[|lines| - 1];
    var kept := KeepPrefixed(init, prefix);
    if |kept| > 0 {
      KeepPrefixedFirst(init, prefix);
      var k :| 0 <= k < |init| && init[k] == kept[0] && StartsWith(init[k], prefix)
               && forall j :: 0 <= j < k ==> !StartsWith(init[j], prefix);
      assert lines[k] == init[k];
      assert forall j :: 0 <= j < k ==> lines[j] == init[j];
    } else {
      forall j | 0 <= j < |init| ensures !StartsWith(lines[j], prefix) {
        assert lines[j] == init[j] && init[j] in init;
      }
      assert KeepPrefixed(lines, prefix) == [last];
    }
  }

  /** The header is the text of the first HEADER line, and there is one
      exactly when the file has a HEADER line. */
  lemma Header(lines: seq<string>)
    ensures HeaderText(lines).Some? <==> exists k :: 0 <= k < |lines| && StartsWith(lines[k], HeaderMarker)
    ensures HeaderText(lines).Some? ==>
              exists k :: 0 <= k < |lines| && StartsWith(lines[k], HeaderMarker)
                          && HeaderText(lines).value == RecordText(lines[k])
                          && forall j :: 0 <= j < k ==> !StartsWith(lines[j], HeaderMarker)
  {
    var headers := KeepPrefixed(lines, HeaderMarker);
    if |headers| > 0 {
      KeepPrefixedFirst(lines, HeaderMarker);
    } else {
      forall k | 0 <= k < |lines| ensures !StartsWith(lines[k], HeaderMarker) {
        assert lines[k] in lines;
      }
    }
  }

  /** Titles are read line by line: the titles of two stretches of a file
      are the titles of the first followed by those of the second. */
  lemma TitlesAppend(a: seq<string>, b: seq<string>)
    ensures TitleTexts(a + b) == TitleTexts(a) + TitleTexts(b)
  {
    KeepPrefixedAppend(a, b, TitleMarker);
  }

  /** A HEADER or TITLE line that ends by column 10 has empty text. */
  lemma ShortRecordText(line: string)
    requires |line| <= 10
    ensures RecordText(line) == ""
  {
    StripBlank("");
  }

  // ---------------------------------------------------------------------
  // Agreement with the ATOM-record decoder

  /** What the analysis reads from an ATOM line agrees with the record the
      decoder builds from it. */
  predicate LineAgrees(line: string, a: Atom) {
    && ChainOf(line) == Some(a.chain)
    && ResidueLabelOf(line).Some?
    && DecodeInt(ResidueLabelOf(line).value) == Some(a.resNum)
  }

  /** A line that decodes has a chain column and a non-blank residue-number
      column, and the label read here decodes to the record's number. */
  lemma DecodedLineLabels(line: string)
    requires DecodeAtom(line).Success?
    ensures LineAgrees(line, DecodeAtom(line).value)
  {
    DecodedColumns(line);
    if |line| <= 60 {
      ShortLineFails(line);
    }
    var text := Slice(line, 22, 26);
    assert NoSeparatorControl(text);
    DecodeStripped(text);
  }

  /** What `int()` makes of each label in a set. */
  function LabelValues(rs: set<string>): set<Option<int>> {
    set r | r in rs :: DecodeInt(r)
  }

  /** On a file the decoder reads without error, the analysis counts one
      record per atom, its chains are exactly the atoms' chains, and its
      residue labels are exactly the atoms' residue numbers as written:
      each label is a number `int()` accepts, and the numbers they denote
      are the atoms' residue numbers. */
  lemma SummaryAgreesWithParse(pdbData: string)
    requires ParsePdb(pdbData).error == None
    ensures var info, atoms := Summarize(pdbData), ParsePdb(pdbData).atoms;
            && info.numAtoms == |atoms|
            && info.chains == (set a | a in atoms :: a.chain)
            && LabelValues(info.residues) == (set a | a in atoms :: Some(a.resNum))
  {
    var ls, atoms := AtomLines(Split(pdbData, '\n')), ParsePdb(pdbData).atoms;
    DecodeAllRecords(ls);
    forall k | 0 <= k < |ls| ensures LineAgrees(ls[k], atoms[k]) {
      DecodedLineLabels(ls[k]);
    }
    ChainsAgree(ls, atoms);
    LabelsAgree(ls, atoms);
  }

  lemma ChainsAgree(ls: seq<string>, atoms: seq<Atom>)
    requires |ls| == |atoms| && forall k :: 0 <= k < |ls| ==> LineAgrees(ls[k], atoms[k])
    ensures ChainSet(ls) == (set a | a in atoms :: a.chain)
  {
    forall c ensures c in ChainSet(ls) <==> c in (set a | a in atoms :: a.chain) {
      ChainSetMembers(ls, c);
      if c in ChainSet(ls) {
        var k :| 0 <= k < |ls| && |ls[k]| > 21 && ls[k][21] == c;
        assert LineAgrees(ls[k], atoms[k]) && atoms[k] in atoms;
      }
      if c in (set a | a in atoms :: a.chain) {
        var k :| 0 <= k < |atoms| && atoms[k].chain == c;
        assert LineAgrees(ls[k], atoms[k]);
      }
    }
  }

  lemma LabelsAgree(ls: seq<string>, atoms: seq<Atom>)
    requires |ls| == |atoms| && forall k :: 0 <= k < |ls| ==> LineAgrees(ls[k], atoms[k])
    ensures LabelValues(ResidueLabels(ls)) == (set a | a in atoms :: Some(a.resNum))
  {
    forall v ensures v in LabelValues(ResidueLabels(ls)) <==> v in (set a | a in atoms :: Some(a.resNum)) {
      if v in LabelValues(ResidueLabels(ls)) {
        var r :| r in ResidueLabels(ls) && DecodeInt(r) == v;
        ResidueLabelsMembers(ls, r);
        var k :| 0 <= k < |ls| && ResidueLabelOf(ls[k]) == Some(r);
        assert LineAgrees(ls[k], atoms[k]) && atoms[k] in atoms;
      }
      if v in (set a | a in atoms :: Some(a.resNum)) {
        var k :| 0 <= k < |atoms| && v == Some(atoms[k].resNum);
        assert LineAgrees(ls[k], atoms[k]);
        var r := ResidueLabelOf(ls[k]).value;
        ResidueLabelsMembers(ls, r);
        assert r in ResidueLabels(ls);
      }
    }
  }
}
