/** The choice of parser for the uploaded dataset in `main` of
    PsychReportAssistant.py: the file name's suffix selects the CSV reader or
    the Excel reader, and any other name makes the tool warn and stop. */
module UploadFormat {

  datatype Reader = Csv | Xlsx | Unsupported

  /** Python's `str.endswith` with one suffix (case-sensitive). */
  predicate EndsWith(s: string, suffix: string) {
    |suffix| <= |s| && s[|s| - |suffix|..] == suffix
  }

  /** The `if`/`elif`/`else` on `uploaded_file.name`. */
  function SelectReader(name: string): Reader {
    if EndsWith(name, ".csv") then Csv
    else if EndsWith(name, ".xlsx") then Xlsx
    else Unsupported
  }

  /** Ends-with is the same as "is some string followed by the suffix". */
  lemma EndsWithIsConcat(s: string, suffix: string)
    ensures EndsWith(s, suffix) <==> exists p :: s == p + suffix
  {
    if EndsWith(s, suffix) {
      var p := s[..|s| - |suffix|];
      assert s == p + suffix;
    }
    if exists p :: s == p + suffix {
      var p :| s == p + suffix;
      assert s[|s| - |suffix|..] == suffix;
    }
  }

  lemma EndsWithAppend(p: string, suffix: string)
    ensures EndsWith(p + suffix, suffix)
  {
    assert (p + suffix)[|p|..] == suffix;
  }

  /** No name ends with both `.csv` and `.xlsx` (their last letters differ),
      so the order of the two tests does not matter: each reader is chosen
      exactly when the name carries its own suffix. */
  lemma SelectReaderBySuffix(name: string)
    ensures SelectReader(name) == Csv <==> EndsWith(name, ".csv")
    ensures SelectReader(name) == Xlsx <==> EndsWith(name, ".xlsx")
    ensures SelectReader(name) == Unsupported <==>
            !EndsWith(name, ".csv") && !EndsWith(name, ".xlsx")
  {
    if EndsWith(name, ".csv") {
      assert name[|name| - 1] == name[|name| - 4..][3];
    }
    if EndsWith(name, ".xlsx") {
      assert name[|name| - 1] == name[|name| - 5..][4];
    }
  }

  /** A name with both extensions is read by the reader of the last one. */
  lemma DoubleExtension()
    ensures SelectReader("roster.xlsx.csv") == Csv
    ensures SelectReader("roster.csv.xlsx") == Xlsx
  {
    assert "roster.xlsx.csv"[11..] == ".csv";
    assert "roster.csv.xlsx"[10..] == ".xlsx";
    assert "roster.csv.xlsx"[11..] != ".csv";
  }

  /** A text file is refused, and so is an upper-case extension, since the
      suffix test is case-sensitive. */
  lemma UnsupportedNames()
    ensures SelectReader("data.txt") == Unsupported
    ensures SelectReader("DATA.CSV") == Unsupported
  {
    assert "data.txt"[4..] != ".csv";
    assert "data.txt"[3..] != ".xlsx";
    assert "DATA.CSV"[4..] != ".csv";
    assert "DATA.CSV"[3..] != ".xlsx";
  }
}
