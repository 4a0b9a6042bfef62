# AlphaFold structure analyzer, modelled in Dafny

`alpha.py` downloads an AlphaFold model (a PDB-format text file) for a
UniProt accession and analyses it. This project models the part of the
program that computes things:

- **`ProteinAnalyzer._parse_atoms`** decodes each `ATOM` line into a record.
  It reads fixed columns of the ATOM record of the wwPDB Atomic Coordinate
  Entry Format v3.3: serial, atom name, residue name, chain identifier,
  residue sequence number, x/y/z, and the temperature factor. AlphaFold
  stores its per-atom pLDDT confidence in the temperature-factor column.
- **`get_confidence_regions`** appends each atom's residue number to one of
  four confidence bands (>90, 70-90, 50-70, <50).
- **`find_domains`** collects the residue numbers of CA atoms with
  confidence above 80. It sorts them, cuts the list wherever two neighbours
  are more than 3 apart, and reports every piece of at least 20 residues
  as `(min, max)`.
- **`analyze_structure_info`** counts ATOM lines and reads the first HEADER
  text and every TITLE text. It also collects the chain identifiers and the
  distinct residue-number strings.

Modules:

| file | module | what it holds |
|---|---|---|
| `wrappers.dfy` | `Wrappers` | `Option` and `Result` |
| `py_text.dfy` | `PyText` | The Python string behaviour the code relies on: `split('\n')`, `startswith`, clamped slicing, `strip()`, `int()`, and `float()` on plain decimals. Also the number renderers that are their partners. |
| `atom_record.dfy` | `AtomRecord` | The ATOM-line decoder, a formatter that writes the same columns, and the parse of a whole file |
| `confidence.dfy` | `Confidence` | The four bands and the dictionary of lists |
| `domains.dfy` | `Domains` | `sorted()`, `min()` and `max()`; the runs of the sorted list; the domains, characterised as maximal stretches; the scan invariant |
| `structure_info.dfy` | `StructureInfo` | The counting part of `analyze_structure_info` |
| `analyzer.dfy` | `Analyzer` | `class ProteinAnalyzer` with its `atoms` field, and what its results mean |

Numbers are exact. A `float()` field becomes a `Decimal(units, places)`,
whose value is `units / 10^places`. The thresholds compare that value
exactly with 50, 70, 80 and 90.

Behaviour of the code worth noting:

- A malformed ATOM line stops the parse with an exception. The atoms
  appended before it stay in `self.atoms` (`AtomRecord.ParseLinesStops`,
  `Analyzer.ProteinAnalyzer.ParseAtoms`).
- An ATOM line of 61 to 65 characters can still decode. The `[60:66]`
  slice is clamped, and a short slice such as `"90"` is still a number.
  Every line of 60 characters or fewer raises (`AtomRecord.ShortLineFails`).
- `int()` and `float()` skip less whitespace than `strip()`. The four
  information separators U+001C to U+001F are whitespace to `strip()`, but
  a numeric column holding one raises (`PyText.SeparatorIsNotANumber`).
- With residues 1-10 and 14-33, the code reports only `(14, 33)`. The gap
  from 10 to 14 is 4, which is more than 3, and 1-10 is shorter than 20
  residues (`Domains.DomainsCharacterised`).
- `get_confidence_regions` returns lists of residue numbers, one entry per
  atom (`Confidence.BandsCount`).
- A HEADER or TITLE line of 10 characters or fewer has the text `""`
  (`StructureInfo.ShortRecordText`).

## Model

| member | source | states |
|---|---|---|
| PyText.Slice | alpha.py:94-102 | A slice never raises. Its length is clamped to the string. |
| PyText.SliceAt | alpha.py:94-102 | Each character of a slice comes from the original string at the shifted index. |
| PyText.Strip | alpha.py:95-96 | The result has no whitespace at either end. |
| PyText.StripIdempotent | alpha.py:67 | Stripping twice is the same as stripping once. |
| PyText.DecodeInt | alpha.py:94-98 | `int()` reads a number only from a field whose stripped text is not empty, and a negative number only from a text starting with `-`. |
| PyText.DecodeDecimal | alpha.py:99-102 | `float()` reads a number only from a field whose stripped text is not empty, and a negative number only from a text starting with `-`. |
| PyText.BlankIsNotANumber | alpha.py:94-102 | A blank or empty field is rejected by both `int()` and `float()`. |
| PyText.SeparatorIsNotANumber | alpha.py:94-102 | A field holding any of U+001C to U+001F is rejected by both `int()` and `float()`, even where `strip()` would remove it. |
| PyText.DecodeSeesNumberText | alpha.py:94-102 | Padding made of the whitespace `int()` and `float()` skip changes neither result. |
| PyText.DecodeEncodeInt | alpha.py:94 | `int()` reads back the decimal rendering of any integer, padded with any whitespace `int()` skips. |
| PyText.DecodeEncodeFixed | alpha.py:99-102 | `float()` reads back the exact value of a fixed-point rendering, padded with any whitespace `float()` skips. |
| PyText.ExceedsValue | alpha.py:117-121 | The integer threshold test `Exceeds(d, k)` holds exactly when the decimal's value is greater than `k`. |
| PyText.Split | alpha.py:40 | `split('\n')` gives at least one piece, and no piece holds a newline. |
| PyText.SplitJoin | alpha.py:91 | Splitting joined lines at `'\n'` gives the lines back, when no line holds a newline. |
| PyText.JoinSplit | alpha.py:91 | Joining the pieces of a split gives the text back. |
| PyText.KeepPrefixed | alpha.py:41-44 | A line is kept exactly when it is one of the lines and starts with the prefix. No more lines are kept than given. |
| PyText.KeepPrefixedAppend | alpha.py:41 | The line filter works line by line and keeps file order. |
| AtomRecord.DecodeAtom | alpha.py:93-103 | Only a line longer than 60 characters can decode, because `float()` of an empty `[60:66]` raises. |
| AtomRecord.DecodedColumns | alpha.py:93-103 | Each field of a decoded record comes from its fixed column. The chain is the character at index 21. The residue number is `int()` of `[22:26]`. The names are the stripped `[12:16]` and `[17:20]`. |
| AtomRecord.DecodeAtomFails | alpha.py:94-102 | A line fails to decode exactly when one of its numeric columns is malformed, or when the line has no index 21. |
| AtomRecord.ShortLineFails | alpha.py:94-102 | A line of 60 characters or fewer always raises. A line of 21 characters or fewer raises on the serial number when that column is malformed, and otherwise on `line[21]`. |
| AtomRecord.DecodeFormat | alpha.py:93-103 | Decoding a line written by the column formatter gives back the record that was written. |
| AtomRecord.DecodeAll | alpha.py:91-104 | With no error, there is one record per line. With an error, there are fewer records than lines. |
| AtomRecord.DecodeAllRecords | alpha.py:91-104 | Records are decoded in order up to the first line that raises. Every kept record is the decoding of the line at its position. The error is the one raised by the line right after them. |
| AtomRecord.CollectStops | alpha.py:91-104 | Once a line has raised, the results after it do not change what was collected. |
| AtomRecord.ParseLines | alpha.py:90-104 | There are never more records than ATOM lines. Without an error, there is one record per ATOM line. |
| AtomRecord.ParseLinesStep | alpha.py:91-104 | One more line: a non-ATOM line changes nothing. An ATOM line either appends its record or raises, and once an error is raised nothing further is read. |
| AtomRecord.ParseLinesStops | alpha.py:91-104 | Once an ATOM line has raised, the lines after it do not change the result. |
| AtomRecord.ParseWellFormed | alpha.py:90-104 | A file whose ATOM lines all decode gives one record per ATOM line, in file order, with no error. |
| AtomRecord.ParseFormatted | alpha.py:90-104 | A file of formatted records parses back to exactly those records. |
| AtomRecord.ParsePdbLines | alpha.py:91 | A file is parsed exactly as its list of lines. |
| Confidence.ClassifyBands | alpha.py:117-124 | Very High exactly when the value is > 90. High exactly when 70 < value ≤ 90. Low exactly when 50 < value ≤ 70. Very Low exactly when value ≤ 50. |
| Confidence.Regions | alpha.py:108-113 | All four keys are present, even for no atoms. Each key holds its band's list, and there are no other keys. |
| Confidence.BandResidues | alpha.py:115-124 | A band's list has at most one entry per atom. |
| Confidence.BandResiduesMembers | alpha.py:115-124 | A residue number is in a band's list exactly when some atom with that number falls in the band. |
| Confidence.BandResiduesAppend | alpha.py:115-124 | The lists are filled atom by atom, so atom order is kept within each band. |
| Confidence.BandsPartition | alpha.py:115-124 | Together, the four lists hold each atom's residue number exactly once, as a multiset. |
| Confidence.BandsCount | alpha.py:115-124 | The four list lengths add up to the number of atoms. |
| Confidence.RegionsStep | alpha.py:115-124 | One more atom appends its residue number to its own band's list only. |
| Domains.Sorted | alpha.py:134 | `sorted()` of a set is strictly ascending, has exactly the set's elements, and has the set's size. |
| Domains.Min | alpha.py:143 | `min()` of a non-empty list is an element of the list and is no greater than any element. |
| Domains.Max | alpha.py:143 | `max()` of a non-empty list is an element of the list and is no less than any element. |
| Domains.MinMaxSorted | alpha.py:143 | On an ascending run, `(min, max)` is its first and last element. |
| Domains.Runs | alpha.py:136-145 | After the first residue there is always an open run, and it ends at the residue scanned last. |
| Domains.RunsOk | alpha.py:136-145 | The runs tile the scanned prefix in order. Within a run every gap is at most 3, and a gap above 3 comes before each run. |
| Domains.RunsMaximal | alpha.py:138-145 | Every run of the scan is a maximal stretch with no gap above 3. |
| Domains.MaximalIsRun | alpha.py:138-145 | Every maximal stretch with no gap above 3 is a run of the scan. |
| Domains.DomainsCharacterised | alpha.py:134-149 | A pair is reported exactly when it is the first and last residue of a maximal stretch of at least 20 residues with no gap above 3. |
| Domains.DomainsOrdered | alpha.py:134-149 | Domains are ascending with `start <= end`. Each domain starts more than 3 after the previous one ends, so domains never overlap. |
| Domains.FewResidues | alpha.py:136-149 | With fewer than 20 residues, including none, there are no domains and no failure. |
| Domains.DomainEnds | alpha.py:143-147 | A domain starts and ends at residues of the list, and its end is at least 19 above its start. |
| Domains.DomainGaps | alpha.py:139-140 | Inside a domain, every residue but the last has a successor at most 3 above it. |
| Domains.DomainIsolated | alpha.py:138-145 | No residue lies within 3 below a domain's start or within 3 above its end. |
| Domains.ScanExtend | alpha.py:139-140 | A residue at most 3 above its predecessor joins the open run, and the scan invariant is kept. |
| Domains.ScanBreak | alpha.py:141-144 | A larger gap closes the open run, reporting it if it is long enough, and opens a new run. The scan invariant is kept. |
| Domains.ScanFinish | alpha.py:146-149 | After the last residue, closing the open run completes exactly the reported domains. |
| StructureInfo.AnalyzeStructureInfo | alpha.py:39-70 | The two loops fill exactly the chain set and the residue set of the ATOM lines. The count, header and titles come from the line filters. |
| StructureInfo.RecordText | alpha.py:51-55 | The text of a HEADER or TITLE line has no whitespace at either end. |
| StructureInfo.TitleTexts | alpha.py:53-55 | There is one title text per TITLE line. |
| StructureInfo.ResidueLabelOf | alpha.py:64-69 | A residue label is read only from a line longer than 26 characters, and it is non-blank and unpadded. |
| StructureInfo.ChainSetMembers | alpha.py:57-61 | A chain is listed exactly when some ATOM line longer than 21 characters has it at index 21. |
| StructureInfo.ResidueLabelsMembers | alpha.py:64-69 | A label is listed exactly when some ATOM line longer than 26 characters has it as its non-blank, stripped `[22:26]`. |
| StructureInfo.ResidueLabelsTrimmed | alpha.py:67-69 | Residue labels are never blank and never padded. |
| StructureInfo.Header | alpha.py:43-51 | A header exists exactly when some line starts with `HEADER`. Its text is `[10:].strip()` of the first such line. |
| StructureInfo.TitlesAppend | alpha.py:44-55 | Title texts are read line by line in file order. |
| StructureInfo.ShortRecordText | alpha.py:51-55 | A HEADER or TITLE line of 10 characters or fewer has empty text. |
| StructureInfo.DecodedLineLabels | alpha.py:57-69 | For a line that decodes, the chain read here is the record's chain. Its residue label is non-blank and decodes to the record's residue number. |
| StructureInfo.SummaryAgreesWithParse | alpha.py:39-70 | On a file that parses without error, the atom count is the number of records. The chains are exactly the records' chains. The labels denote exactly the records' residue numbers. |
| Analyzer.ProteinAnalyzer.constructor | alpha.py:73-76 | A new analyzer has no data and no atoms. |
| Analyzer.ProteinAnalyzer.FetchStructure | alpha.py:78-86 | On a 200 reply, the text is kept and parsed; the result is `True` exactly when parsing does not raise, and otherwise the parse error. On any other reply, the result is `False` and nothing changes. |
| Analyzer.ProteinAnalyzer.ParseAtoms | alpha.py:88-104 | The atom list is reset, then holds the parse of the text, including the records kept before an error. With no text, the method raises and the list is left empty. |
| Analyzer.ProteinAnalyzer.GetConfidenceRegions | alpha.py:106-126 | The loop builds exactly the four-band dictionary of the atoms. |
| Analyzer.ProteinAnalyzer.FindDomains | alpha.py:128-149 | The set loop collects the confident CA residues, and the result is the domains of their sorted list. |
| Analyzer.ScanSorted | alpha.py:135-149 | The scan over an ascending list returns exactly its domains. |
| Analyzer.ParsedRecords | alpha.py:90-104 | Parsing a file's text gives one record per ATOM line, up to the first line that raises; that line's error is the one reported. |
| Analyzer.HighConfidenceMembers | alpha.py:129-132 | A residue number is collected exactly when some CA atom carries it with confidence above 80. |
| Analyzer.FewConfidentResidues | alpha.py:134-149 | Fewer than 20 confident residues, including none, give an empty list. |
| Analyzer.FoundDomainsSeparated | alpha.py:134-149 | The reported domains are ascending, non-overlapping, and more than 3 apart. |
| Analyzer.FoundDomainEnds | alpha.py:143-147 | Both ends of a domain are confident CA residues, and they are at least 19 apart. |
| Analyzer.FoundDomainGaps | alpha.py:139-140 | Inside a domain, each confident residue but the last has another within 3 above it. |
| Analyzer.FoundDomainIsolated | alpha.py:138-145 | No confident residue lies within 3 outside either end of a domain. |

## Left out

- `fetch_pdb` and the HTTP request in `fetch_structure` (alpha.py:6-12, 80-81) are network I/O. `FetchStructure` takes the reply as a function from URL to status code and body.
- `save_structure_html` (alpha.py:14-28) calls into `py3Dmol` and writes a file, so it is not modelled.
- `save_pdb_file` (alpha.py:30-37) is file I/O and is not modelled.
- `main` and all printing (alpha.py:46-70, 151-192) are left out. `AnalyzeStructureInfo` returns the values that would be printed. The `uniprot_id` argument is used only in a printed heading, so it is dropped.
- PyText.DecodeDecimal: models `float()` only on plain decimals (sign, ASCII digits, optional point). It leaves out exponents, `inf`/`nan`, underscores, non-ASCII decimal digits and binary rounding. The values are kept exactly. The thresholds are whole numbers and the fields are at most 8 characters, so rounding cannot change a comparison.
- PyText.DecodeInt: models `int()` on ASCII digits with an optional sign and surrounding whitespace. It leaves out underscores and non-ASCII digits.
- Coordinates are decoded but never used for anything else, as in the program.
- `sorted()`, `min()` and `max()` are modelled by their results, not by Python's algorithms.
- Dictionary key order is not modelled; the result is a Dafny `map`.
- Exceptions are modelled as returned errors: `Result`, `Option<ParseError>`, and the `error` field of `Parsed`. Python's traceback is not modelled.
