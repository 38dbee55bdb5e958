/** The report loop in `main` of PsychReportAssistant.py.

    One `DocxTemplate` object is loaded and reused for every row: each
    iteration renders it against the row (which changes the object), builds
    the name `clean_filename(FirstName + "_" + LastName + "_Report.docx")`
    and saves the object's current state under that name in a fresh
    temporary directory, replacing any earlier file of the same name.

    The templating engine cannot be seen: a template's state has a type
    parameter `S` and the effect of rendering is a function
    `engine: (S, Row) -> S` fixed when the template is loaded. */
module ReportGenerator {
  import opened FileNames
  import opened UploadFormat

  /** One dataset row: the two columns the file name is built from, and the
      remaining columns, which only the template engine reads. */
  datatype Row = Row(firstName: string, lastName: string, otherColumns: map<string, string>)

  /** The fixed ending of every report file name. */
  const ReportSuffix: string := "_Report.docx"

  /** The name a row's report is saved under. */
  function ReportFileName(isAlnum: char -> bool, row: Row): string {
    CleanFilename(isAlnum, row.firstName + "_" + row.lastName + ReportSuffix)
  }

  /** The loaded `DocxTemplate`: a document state changed in place by
      rendering. */
  class Template<S> {
    var state: S
    const engine: (S, Row) -> S

    constructor (loaded: S, engine: (S, Row) -> S)
      ensures state == loaded && this.engine == engine
    {
      state := loaded;
      this.engine := engine;
    }

    /** generate_report: render the template against a row. */
    method Render(row: Row)
      modifies this
      ensures state == engine(old(state), row)
    {
      state := engine(state, row);
    }

    /** `template.save(temp_dir / name)`: write the current state to the
        directory, replacing a file of the same name. */
    method Save(dir: OutputDir<S>, name: string)
      modifies dir
      ensures dir.files == old(dir.files)[name := state]
    {
      dir.files := dir.files[name := state];
    }
  }

  /** The run's output directory, from file name to saved document. */
  class OutputDir<S> {
    var files: map<string, S>

    /** `tempfile.mkdtemp()` and `mkdir`: a new, empty directory. */
    constructor ()
      ensures files == map[]
    {
      files := map[];
    }
  }

  /** The template's state after rendering `rows` in order, starting from
      `init`. */
  function StateAfter<S>(engine: (S, Row) -> S, init: S, rows: seq<Row>): S {
    if rows == [] then init
    else engine(StateAfter(engine, init, rows[..|rows| - 1]), rows[|rows| - 1])
  }

  /** The directory after the loop has processed `rows`: each row's report
      file holds the template state right after that row was rendered, and a
      later row with the same file name replaces an earlier one. */
  function Written<S>(isAlnum: char -> bool, engine: (S, Row) -> S, init: S, rows: seq<Row>)
    : map<string, S>
  {
    if rows == [] then map[]
    else
      Written(isAlnum, engine, init, rows[..|rows| - 1])
        [ReportFileName(isAlnum, rows[|rows| - 1]) := StateAfter(engine, init, rows)]
  }

  /** The file names of the rows, in row order. */
  function Names(isAlnum: char -> bool, rows: seq<Row>): (ns: seq<string>)
    ensures |ns| == |rows|
    ensures forall i :: 0 <= i < |rows| ==> ns[i] == ReportFileName(isAlnum, rows[i])
  {
    if rows == [] then []
    else Names(isAlnum, rows[..|rows| - 1]) + [ReportFileName(isAlnum, rows[|rows| - 1])]
  }

  ghost predicate Distinct(ns: seq<string>) {
    forall i, j :: 0 <= i < j < |ns| ==> ns[i] != ns[j]
  }

  /** The `for index, row in df.iterrows()` loop, with the directory it
      writes into.  The directory ends up as `Written`, and the template has
      been rendered against every row in turn. */
  method GenerateReports<S>(isAlnum: char -> bool, rows: seq<Row>, template: Template<S>)
    returns (dir: OutputDir<S>)
    modifies template
    ensures fresh(dir)
    ensures dir.files == Written(isAlnum, template.engine, old(template.state), rows)
    ensures template.state == StateAfter(template.engine, old(template.state), rows)
  {
    dir := new OutputDir();
    var i := 0;
    while i < |rows|
      invariant 0 <= i <= |rows|
      invariant template.state == StateAfter(template.engine, old(template.state), rows[..i])
      invariant dir.files == Written(isAlnum, template.engine, old(template.state), rows[..i])
    {
      assert rows[..i + 1][..i] == rows[..i];
      template.Render(rows[i]);
      var filename := ReportFileName(isAlnum, rows[i]);
      template.Save(dir, filename);
      i := i + 1;
    }
    assert rows[..i] == rows;
  }

  /** What one press of "Generate Reports" leads to. */
  datatype Run<S> = Halted | Generated(dir: OutputDir<S>)

  /** `main` from the uploaded dataset's name on: an unsupported name halts
      before any row is read or any file written; otherwise `rows` (the
      table the chosen reader produced) go through the loop. */
  method ProcessUpload<S>(isAlnum: char -> bool, uploadName: string, rows: seq<Row>,
                          template: Template<S>)
    returns (run: Run<S>)
    modifies template
    ensures run.Halted? <==> SelectReader(uploadName) == Unsupported
    ensures run.Halted? ==> template.state == old(template.state)
    ensures run.Generated? ==>
              && fresh(run.dir)
              && run.dir.files == Written(isAlnum, template.engine, old(template.state), rows)
              && template.state == StateAfter(template.engine, old(template.state), rows)
  {
    if SelectReader(uploadName) == Unsupported {
      return Halted;
    }
    var dir := GenerateReports(isAlnum, rows, template);
    run := Generated(dir);
  }

  /** A report name is the filtered first name, `_`, the filtered last
      name and the suffix `_Report.docx`: the suffix consists of allowed
      characters and ends in `x`, so neither the filter nor `rstrip` touches
      it. */
  lemma ReportFileNameShape(isAlnum: char -> bool, row: Row)
    requires AsciiAlnumIncluded(isAlnum)
    ensures ReportFileName(isAlnum, row)
         == Keep(isAlnum, row.firstName) + "_" + Keep(isAlnum, row.lastName) + ReportSuffix
  {
    ReportSuffixKept(isAlnum);
    ReportSuffixEnd();
    UnderscoreKept(isAlnum);
    NameShape(isAlnum, row.firstName, row.lastName, ReportSuffix);
  }

  /** `_Report.docx` ends in a character `rstrip` keeps. */
  lemma ReportSuffixEnd()
    ensures ReportSuffix != [] && !IsSpace(ReportSuffix[|ReportSuffix| - 1])
  {
  }

  /** Every report name ends in `_Report.docx`, so none is empty. */
  lemma ReportFileNameSuffix(isAlnum: char -> bool, row: Row)
    requires AsciiAlnumIncluded(isAlnum)
    ensures EndsWith(ReportFileName(isAlnum, row), ReportSuffix)
  {
    ReportFileNameShape(isAlnum, row);
    EndsWithAppend(Keep(isAlnum, row.firstName) + "_" + Keep(isAlnum, row.lastName), ReportSuffix);
  }

  /** Filtering `first + "_" + last + suffix` for a suffix that survives
      clean_filename whole. */
  lemma NameShape(isAlnum: char -> bool, first: string, last: string, suffix: string)
    requires Keep(isAlnum, "_") == "_" && Keep(isAlnum, suffix) == suffix
    requires suffix != [] && !IsSpace(suffix[|suffix| - 1])
    ensures CleanFilename(isAlnum, first + "_" + last + suffix)
         == Keep(isAlnum, first) + "_" + Keep(isAlnum, last) + suffix
  {
    CleanKeepsSuffix(isAlnum, first + "_" + last, suffix);
    KeepAppend(isAlnum, first + "_", last);
    KeepAppend(isAlnum, first, "_");
  }

  lemma ReportSuffixKept(isAlnum: char -> bool)
    requires AsciiAlnumIncluded(isAlnum)
    ensures Keep(isAlnum, ReportSuffix) == ReportSuffix
  {
    KeepAsciiName(isAlnum, ReportSuffix);
  }

  lemma UnderscoreKept(isAlnum: char -> bool)
    ensures Keep(isAlnum, "_") == "_"
  {
    assert "_"[1..] == [];
  }

  /** Two different rows can share a report file: the `_` between the two
      names is an allowed character, so where one name ends and the other
      begins is lost. */
  lemma DifferentRowsCanCollide(isAlnum: char -> bool)
    ensures Row("Ann_Lee", "Kim", map[]) != Row("Ann", "Lee_Kim", map[])
    ensures ReportFileName(isAlnum, Row("Ann_Lee", "Kim", map[]))
         == ReportFileName(isAlnum, Row("Ann", "Lee_Kim", map[]))
  {
    assert "Ann_Lee" + "_" + "Kim" == "Ann" + "_" + "Lee_Kim";
  }

  /** The directory holds exactly one file per distinct report name of the
      rows. */
  lemma {:induction false} WrittenKeys<S>(isAlnum: char -> bool, engine: (S, Row) -> S, init: S,
                                          rows: seq<Row>)
    ensures Written(isAlnum, engine, init, rows).Keys == set n | n in Names(isAlnum, rows)
  {
    if rows != [] {
      var front := rows[..|rows| - 1];
      WrittenKeys(isAlnum, engine, init, front);
      var ns, fs := Names(isAlnum, rows), Names(isAlnum, front);
      var last := ReportFileName(isAlnum, rows[|rows| - 1]);
      assert ns == fs + [last];
      ElementsOfAppend(fs, last);
    }
  }

  lemma ElementsOfAppend(ns: seq<string>, x: string)
    ensures (set n | n in ns + [x]) == (set n | n in ns) + {x}
  {
  }

  /** A file holds the state saved by the last row that has its name. */
  lemma {:induction false} LastWriteWins<S>(isAlnum: char -> bool, engine: (S, Row) -> S, init: S,
                                            rows: seq<Row>, j: nat)
    requires j < |rows|
    requires forall m :: j < m < |rows| ==>
               ReportFileName(isAlnum, rows[m]) != ReportFileName(isAlnum, rows[j])
    ensures ReportFileName(isAlnum, rows[j]) in Written(isAlnum, engine, init, rows)
    ensures Written(isAlnum, engine, init, rows)[ReportFileName(isAlnum, rows[j])]
         == StateAfter(engine, init, rows[..j + 1])
  {
    var front := rows[..|rows| - 1];
    if j < |rows| - 1 {
      LastWriteWins(isAlnum, engine, init, front, j);
      assert front[..j + 1] == rows[..j + 1];
    } else {
      assert rows[..j + 1] == rows;
    }
  }

  /** A sequence has at most as many distinct elements as entries, and
      exactly as many iff its entries are pairwise distinct. */
  lemma {:induction false} DistinctCount(ns: seq<string>)
    ensures |set n | n in ns| <= |ns|
    ensures |set n | n in ns| == |ns| <==> Distinct(ns)
  {
    if ns != [] {
      var front, last := ns[..|ns| - 1], ns[|ns| - 1];
      DistinctCount(front);
      var s, fs := set n | n in ns, set n | n in front;
      assert ns == front + [last];
      assert s == fs + {last};
      if last in fs {
        var k :| 0 <= k < |front| && front[k] == last;
        assert ns[k] == ns[|ns| - 1];
        assert s == fs;
      } else {
        assert |s| == |fs| + 1;
        if Distinct(front) {
          forall i, j | 0 <= i < j < |ns| ensures ns[i] != ns[j] {
            if j < |ns| - 1 {
              assert ns[i] == front[i] && ns[j] == front[j];
            } else {
              assert ns[i] == front[i] && front[i] in fs;
            }
          }
        } else {
          var i, j :| 0 <= i < j < |front| && front[i] == front[j];
          assert ns[i] == ns[j];
        }
      }
    }
  }

  /** The number of report files is the number of distinct report names,
      which is at most the number of rows, and equals
      it exactly when no two rows share a report name; rows that share a
      name leave a single file. */
  lemma FileCount<S>(isAlnum: char -> bool, engine: (S, Row) -> S, init: S, rows: seq<Row>)
    ensures |Written(isAlnum, engine, init, rows)| == |set n | n in Names(isAlnum, rows)|
    ensures |Written(isAlnum, engine, init, rows)| <= |rows|
    ensures |Written(isAlnum, engine, init, rows)| == |rows| <==> Distinct(Names(isAlnum, rows))
  {
    WrittenKeys(isAlnum, engine, init, rows);
    DistinctCount(Names(isAlnum, rows));
    assert |Written(isAlnum, engine, init, rows)| == |Written(isAlnum, engine, init, rows).Keys|;
  }

  /** Two rows with the same first and last name produce one file. */
  lemma DuplicateRowsOneFile<S>(isAlnum: char -> bool, engine: (S, Row) -> S, init: S,
                                r1: Row, r2: Row)
    requires r1.firstName == r2.firstName && r1.lastName == r2.lastName
    ensures |Written(isAlnum, engine, init, [r1, r2])| == 1
  {
    WrittenKeys(isAlnum, engine, init, [r1, r2]);
    var name := ReportFileName(isAlnum, r1);
    assert Names(isAlnum, [r1, r2]) == [name, name];
    assert (set n | n in [name, name]) == {name};
  }

  /** Rendering "consumes" the template when a second render changes
      nothing: then every file holds the document rendered for the first
      row, whatever the later rows say. */
  ghost predicate RenderConsumesTemplate<S(!new)>(engine: (S, Row) -> S) {
    forall s, a, b :: engine(engine(s, a), b) == engine(s, a)
  }

  lemma {:induction false} StateAfterConsumed<S(!new)>(engine: (S, Row) -> S, init: S,
                                                      rows: seq<Row>)
    requires RenderConsumesTemplate(engine) && rows != []
    ensures StateAfter(engine, init, rows) == engine(init, rows[0])
  {
    var front := rows[..|rows| - 1];
    if front != [] {
      StateAfterConsumed(engine, init, front);
      assert front[0] == rows[0];
    } else {
      assert StateAfter(engine, init, front) == init;
    }
  }

  /** The reused template makes every report identical when rendering
      consumes the template. */
  lemma {:induction false} AllReportsIdentical<S(!new)>(isAlnum: char -> bool,
                                                       engine: (S, Row) -> S, init: S,
                                                       rows: seq<Row>)
    requires RenderConsumesTemplate(engine)
    ensures forall n :: n in Written(isAlnum, engine, init, rows) ==>
              Written(isAlnum, engine, init, rows)[n] == engine(init, rows[0])
  {
    if rows != [] {
      var front := rows[..|rows| - 1];
      AllReportsIdentical(isAlnum, engine, init, front);
      StateAfterConsumed(engine, init, rows);
      if front != [] {
        assert front[0] == rows[0];
      }
    }
  }
}
