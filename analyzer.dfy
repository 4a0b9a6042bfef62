/**
  `ProteinAnalyzer` (alpha.py:72-149): an object that holds one AlphaFold
  model, fills its list of atom records from the downloaded text, and
  derives the confidence bands and the structural domains from that list.
  The download itself is a parameter: the caller supplies the reply the
  server gives for a URL.
*/
module Analyzer {
  import opened Wrappers
  import opened PyText
  import opened AtomRecord
  import opened Confidence
  import opened Domains

  /** The status code and body of the reply to a GET request. */
  datatype Response = Response(statusCode: int, text: string)

  /** Why parsing raised: there was no text to parse (`AttributeError` on
      `None.split`), or an ATOM line could not be decoded. */
  datatype ParseError = NoStructureData | BadAtomLine(cause: RecordError)

  const StatusOk := 200

  /** Only CA atoms above this confidence take part in domains. */
  const DomainConfidence := 80
  const AlphaCarbon := "CA"

  const UrlPrefix := "https://alphafold.ebi.ac.uk/files/AF-"
  const UrlSuffix := "-F1-model_v4.pdb"

  /** Where the AlphaFold database keeps the model of a UniProt accession. */
  function StructureUrl(uniprotId: string): string {
    UrlPrefix + uniprotId + UrlSuffix
  }

  /** What the raised error is for a parse outcome. */
  function Raised(p: Parsed): Option<ParseError> {
    match p.error
    case None => None
    case Some(e) => Some(BadAtomLine(e))
  }

  /** The residue numbers of CA atoms whose confidence exceeds 80. */
  function HighConfidence(atoms: seq<Atom>): set<int> {
    if |atoms| == 0 then {}
    else
      var init := HighConfidence(atoms[..|atoms| - 1]);
      var a := atoms[|atoms| - 1];
      if Exceeds(a.confidence, DomainConfidence) && a.atomName == AlphaCarbon then init + {a.resNum} else init
  }

  /** What `find_domains` returns for a list of atoms. */
  function FoundDomains(atoms: seq<Atom>): seq<(int, int)> {
    SortedDomains(Sorted(HighConfidence(atoms)))
  }

  class ProteinAnalyzer {
    var uniprotId: string
    var pdbData: Option<string>
    var atoms: seq<Atom>

    constructor (uniprotId: string)
      ensures this.uniprotId == uniprotId && pdbData == None && atoms == []
    {
      this.uniprotId := uniprotId;
      pdbData := None;
      atoms := [];
    }

    /** `fetch_structure`: on a 200 reply keep the text and parse it, which
        either succeeds (`True`) or raises; on any other reply change
        nothing and answer `False`. */
    method FetchStructure(get: string -> Response) returns (outcome: Result<bool, ParseError>)
      modifies this
      ensures uniprotId == old(uniprotId)
      ensures var reply := get(StructureUrl(old(uniprotId)));
              if reply.statusCode == StatusOk then
                && pdbData == Some(reply.text)
                && atoms == ParsePdb(reply.text).atoms
                && (outcome == Success(true) <==> ParsePdb(reply.text).error.None?)
                && (ParsePdb(reply.text).error.Some? ==> outcome == Failure(BadAtomLine(ParsePdb(reply.text).error.value)))
              else
                && outcome == Success(false)
                && pdbData == old(pdbData) && atoms == old(atoms)
    {
      var response := get(StructureUrl(uniprotId));
      if response.statusCode == StatusOk {
        pdbData := Some(response.text);
        var raised := ParseAtoms();
        if raised.Some? {
          return Failure(raised.value);
        }
        return Success(true);
      }
      return Success(false);
    }

    /** `_parse_atoms`: empty the atom list, then append one record per
        ATOM line in file order; an undecodable ATOM line raises, leaving
        the records appended before it in place. */
    method ParseAtoms() returns (raised: Option<ParseError>)
      modifies this
      ensures uniprotId == old(uniprotId) && pdbData == old(pdbData)
      ensures pdbData.None? ==> atoms == [] && raised == Some(NoStructureData)
      ensures pdbData.Some? ==> atoms == ParsePdb(pdbData.value).atoms && raised == Raised(ParsePdb(pdbData.value))
    {
      atoms := [];
      if pdbData.None? {
        return Some(NoStructureData);
      }
      var lines := Split(pdbData.value, '\n');
      for i := 0 to |lines|
        invariant uniprotId == old(uniprotId) && pdbData == old(pdbData)
        invariant ParseLines(lines[..i]) == Parsed(atoms, None)
      {
        var line := lines[i];
        ParseLinesStep(lines[..i], line);
        assert lines[..i + 1] == lines[..i] + [line];
        if StartsWith(line, AtomMarker) {
          var decoded := DecodeAtom(line);
          if decoded.Failure? {
            ParseLinesPrefix(lines, i);
            return Some(BadAtomLine(decoded.error));
          }
          atoms := atoms + [decoded.value];
        }
      }
      assert lines[..|lines|] == lines;
      return None;
    }

    /** `get_confidence_regions`: the four lists, filled atom by atom. */
    method GetConfidenceRegions() returns (ranges: map<string, seq<int>>)
      ensures ranges == Regions(atoms)
    {
      ranges := map[Label(VeryHigh) := [], Label(High) := [], Label(Low) := [], Label(VeryLow) := []];
      assert ranges == Regions([]);
      LabelsDistinct();
      for i := 0 to |atoms|
        invariant ranges == Regions(atoms[..i])
      {
        var atom := atoms[i];
        RegionsStep(atoms, i);
        var conf := atom.confidence;
        if Exceeds(conf, 90) {
          ranges := ranges[Label(VeryHigh) := ranges[Label(VeryHigh)] + [atom.resNum]];
        } else if Exceeds(conf, 70) {
          ranges := ranges[Label(High) := ranges[Label(High)] + [atom.resNum]];
        } else if Exceeds(conf, 50) {
          ranges := ranges[Label(Low) := ranges[Label(Low)] + [atom.resNum]];
        } else {
          ranges := ranges[Label(VeryLow) := ranges[Label(VeryLow)] + [atom.resNum]];
        }
      }
      assert atoms[..|atoms|] == atoms;
    }

    /** `find_domains`: collect the confident CA residues, sort them, and
        scan the sorted list once, closing a run at every gap above
        `MaxGap` and reporting the runs of at least `MinDomainSize`. */
    method FindDomains() returns (domains: seq<(int, int)>)
      ensures domains == FoundDomains(atoms)
    {
      var highConfResidues: set<int> := {};
      for k := 0 to |atoms|
        invariant highConfResidues == HighConfidence(atoms[..k])
      {
        var atom := atoms[k];
        assert atoms[..k + 1][..k] == atoms[..k];
        if Exceeds(atom.confidence, DomainConfidence) && atom.atomName == AlphaCarbon {
          highConfResidues := highConfResidues + {atom.resNum};
        }
      }
      assert atoms[..|atoms|] == atoms;
      domains := ScanSorted(Sorted(highConfResidues));
    }
  }

  /** The scan of `find_domains` over the sorted residue numbers: extend
      the current run while the gap to the previous residue is at most
      `MaxGap`, otherwise close it (reporting it when it holds at least
      `MinDomainSize` residues) and start a new one. */
  method ScanSorted(sortedResidues: seq<int>) returns (domains: seq<(int, int)>)
    requires StrictlyIncreasing(sortedResidues)
    ensures domains == SortedDomains(sortedResidues)
  {
    domains := [];
    if |sortedResidues| == 0 {
      FewResidues(sortedResidues);
      return;
    }
    var currentDomain := [sortedResidues[0]];
    ScanStart(sortedResidues);
    for i := 1 to |sortedResidues|
      invariant Scanned(sortedResidues, i, currentDomain, domains)
    {
      if sortedResidues[i] - sortedResidues[i - 1] <= MaxGap {
        ScanExtend(sortedResidues, i, currentDomain, domains);
        currentDomain := currentDomain + [sortedResidues[i]];
      } else {
        ScanBreak(sortedResidues, i, currentDomain, domains);
        ghost var closed := domains + Emit(currentDomain);
        if |currentDomain| >= MinDomainSize {
          domains := domains + [(Min(currentDomain), Max(currentDomain))];
        } else {
          assert domains + [] == domains;
        }
        assert domains == closed;
        currentDomain := [sortedResidues[i]];
      }
    }
    ScanFinish(sortedResidues, currentDomain, domains);
    ghost var closed := domains + Emit(currentDomain);
    if |currentDomain| >= MinDomainSize {
      domains := domains + [(Min(currentDomain), Max(currentDomain))];
    } else {
      assert domains + [] == domains;
    }
    assert domains == closed;
  }

  // ---------------------------------------------------------------------
  // What the analyzer's results mean

  /** Parsing a file keeps one record for each ATOM line up to the first
      that raises, and nothing else: the outcome of `_parse_atoms` on the
      file's text, stated line by line. */
  lemma ParsedRecords(pdbData: string)
    ensures var p, kept := ParsePdb(pdbData), KeepPrefixed(Split(pdbData, '\n'), AtomMarker);
            && |p.atoms| <= |kept|
            && (forall k :: 0 <= k < |p.atoms| ==> DecodeAtom(kept[k]) == Success(p.atoms[k]))
            && (p.error.None? <==> |p.atoms| == |kept|)
            && (p.error.Some? ==> DecodeAtom(kept[|p.atoms|]) == Failure(p.error.value))
  {
    DecodeAllRecords(KeepPrefixed(Split(pdbData, '\n'), AtomMarker));
  }

  /** A residue number is confident exactly when some CA atom carries it
      with a confidence above 80. */
  lemma {:induction false} HighConfidenceMembers(atoms: seq<Atom>, n: int)
    ensures n in HighConfidence(atoms) <==>
            exists k :: 0 <= k < |atoms| && atoms[k].resNum == n && atoms[k].atomName == AlphaCarbon
                        && ValueOf(atoms[k].confidence) > DomainConfidence as real
  {
    forall k | 0 <= k < |atoms| ensures Exceeds(atoms[k].confidence, DomainConfidence) <==> ValueOf(atoms[k].confidence) > DomainConfidence as real {
      ExceedsValue(atoms[k].confidence, DomainConfidence);
    }
    if |atoms| > 0 {
      var init := atoms[..|atoms| - 1];
      HighConfidenceMembers(init, n);
      if exists k :: 0 <= k < |atoms| && atoms[k].resNum == n && atoms[k].atomName == AlphaCarbon
                     && ValueOf(atoms[k].confidence) > DomainConfidence as real {
        var k :| 0 <= k < |atoms| && atoms[k].resNum == n && atoms[k].atomName == AlphaCarbon
                 && ValueOf(atoms[k].confidence) > DomainConfidence as real;
        if k < |init| {
          assert init[k] == atoms[k];
        }
      }
      if n in HighConfidence(init) {
        var k :| 0 <= k < |init| && init[k].resNum == n && init[k].atomName == AlphaCarbon
                 && ValueOf(init[k].confidence) > DomainConfidence as real;
        assert atoms[k] == init[k];
      }
    }
  }

  /** Without at least `MinDomainSize` confident residues, in particular
      without any, `find_domains` returns an empty list rather than failing. */
  lemma FewConfidentResidues(atoms: seq<Atom>)
    requires |HighConfidence(atoms)| < MinDomainSize
    ensures FoundDomains(atoms) == []
  {
    FewResidues(Sorted(HighConfidence(atoms)));
  }

  /** Domains come out in ascending order, each `start <= end`, and more than
      `MaxGap` lies between one domain's end and the next one's start. */
  lemma FoundDomainsSeparated(atoms: seq<Atom>)
    ensures Separated(FoundDomains(atoms))
  {
    DomainsOrdered(Sorted(HighConfidence(atoms)));
  }

  /** Both ends of a domain are confident residues, and a domain spans at
      least `MinDomainSize` residue numbers. */
  lemma FoundDomainEnds(atoms: seq<Atom>, d: (int, int))
    requires d in FoundDomains(atoms)
    ensures d.0 in HighConfidence(atoms) && d.1 in HighConfidence(atoms)
    ensures d.1 - d.0 >= MinDomainSize - 1
  {
    var xs := Sorted(HighConfidence(atoms));
    DomainEnds(xs, d);
  }

  /** Inside a domain, every confident residue but the last has another
      confident residue at most `MaxGap` above it. */
  lemma FoundDomainGaps(atoms: seq<Atom>, d: (int, int), n: int)
    requires d in FoundDomains(atoms)
    requires n in HighConfidence(atoms) && d.0 <= n < d.1
    ensures exists m :: m in HighConfidence(atoms) && n < m <= n + MaxGap
  {
    var xs := Sorted(HighConfidence(atoms));
    DomainGaps(xs, d, n);
    var m :| m in xs && n < m <= n + MaxGap;
    assert m in HighConfidence(atoms);
  }

  /** A domain is as long as it can be: no confident residue lies within
      `MaxGap` below its start or above its end. */
  lemma FoundDomainIsolated(atoms: seq<Atom>, d: (int, int), m: int)
    requires d in FoundDomains(atoms) && m in HighConfidence(atoms)
    ensures !(d.0 - MaxGap <= m < d.0) && !(d.1 < m <= d.1 + MaxGap)
  {
    var xs := Sorted(HighConfidence(atoms));
    DomainIsolated(xs, d, m);
  }
}
