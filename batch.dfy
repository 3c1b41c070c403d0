/** The row loop of the bulk generator: for each sheet row, in order, build
    the thirteen replacement fields, name the template and the certificate,
    and either fill the template (when it exists) and list the certificate,
    or warn that the row was skipped.

    Whether a template file exists is a predicate given to the loop, and the
    randomly drawn composition figures of each row are given as already
    formatted text; both are fixed for the whole run. */
module Batch {
  import opened Wrappers
  import opened Substitution
  import BestBefore
  import opened FileNames

  /** One row of the sheet, each column as `str(...)` renders it; `moisture`
      is the text Python prints for the float read from the Moisture column. */
  datatype SheetRow = SheetRow(
    code: string,
    date: string,
    batch: string,
    moisture: string,
    ph: string,
    mesh: string,
    viscosity2h: string,
    viscosity24h: string)

  /** The five figures `calculate_components` draws for a row, as printed. */
  datatype Components = Components(gum: string, protein: string, ash: string, air: string, fat: string)

  /** One call of `generate_docx(data, template, output_path)`, given by the
      row it fills and the figures drawn for that row; its three arguments
      are Data, TemplateName and Output below. */
  datatype Job = Job(row: SheetRow, figures: Components)

  /** The keys of the replacement mapping, in insertion order. */
  const Keys: seq<string> := ["DATE", "BATCH_NO", "BEST_BEFORE", "MOISTURE", "PH", "MESH_200",
                              "VISCOSITY_2H", "VISCOSITY_24H", "GUM_CONTENT", "PROTEIN",
                              "ASH_CONTENT", "AIR", "FAT"]

  /** The replacement mapping of one row, given its best-before text. */
  function FieldMap(row: SheetRow, bestBefore: string, c: Components): (fields: seq<Field>)
    ensures |fields| == |Keys|
    ensures forall i :: 0 <= i < |Keys| ==> fields[i].key == Keys[i]
  {
    [Field("DATE", row.date),
     Field("BATCH_NO", row.batch),
     Field("BEST_BEFORE", bestBefore),
     Field("MOISTURE", row.moisture + "%"),
     Field("PH", row.ph),
     Field("MESH_200", row.mesh + "%"),
     Field("VISCOSITY_2H", row.viscosity2h),
     Field("VISCOSITY_24H", row.viscosity24h),
     Field("GUM_CONTENT", c.gum + "%"),
     Field("PROTEIN", c.protein + "%"),
     Field("ASH_CONTENT", c.ash + "%"),
     Field("AIR", c.air + "%"),
     Field("FAT", c.fat + "%")]
  }

  /** `data[key]`: the value of the first entry with that key. */
  function Lookup(fields: seq<Field>, key: string): (r: Option<string>)
    ensures r.Some? <==> exists i :: 0 <= i < |fields| && fields[i].key == key
  {
    if fields == [] then None
    else if fields[0].key == key then Some(fields[0].value)
    else Lookup(fields[1..], key)
  }

  /** The template of a row exists. */
  predicate HasTemplate(row: SheetRow, templateExists: string -> bool)
  {
    templateExists(TemplateFileName(row.code))
  }

  /** The `data` argument of a call. */
  function Data(job: Job): (fields: seq<Field>)
    ensures |fields| == |Keys|
    ensures Lookup(fields, "BEST_BEFORE") == Some(BestBefore.BestBeforeOf(job.row.date))
    ensures Lookup(fields, "DATE") == Some(job.row.date) && Lookup(fields, "BATCH_NO") == Some(job.row.batch)
  {
    var bestBefore := BestBefore.BestBeforeOf(job.row.date);
    BestBeforeField(job.row, bestBefore, job.figures);
    FieldMapLookup(job.row, bestBefore, job.figures, 0);
    FieldMapLookup(job.row, bestBefore, job.figures, 1);
    FieldMap(job.row, bestBefore, job.figures)
  }

  /** The `template` argument of a call. */
  function TemplateName(job: Job): string
  {
    TemplateFileName(job.row.code)
  }

  /** The `output_path` argument of a call. */
  function Output(job: Job): string
  {
    OutputPath(job.row.batch, job.row.code)
  }

  /** The indices of the rows whose template exists, in row order. */
  function Served(rows: seq<SheetRow>, templateExists: string -> bool): (r: seq<nat>)
    ensures |r| <= |rows|
  {
    if rows == [] then []
    else
      var i := |rows| - 1;
      Served(rows[..i], templateExists) + (if HasTemplate(rows[i], templateExists) then [i] else [])
  }

  /** The row numbers (`idx + 1`) of the skipped rows, in row order. */
  function Skipped(rows: seq<SheetRow>, templateExists: string -> bool): (r: seq<nat>)
    ensures |r| <= |rows|
  {
    if rows == [] then []
    else
      var i := |rows| - 1;
      Skipped(rows[..i], templateExists) + (if HasTemplate(rows[i], templateExists) then [] else [i + 1])
  }

  /** The row loop. It returns the generate_docx calls it makes, the
      certificate paths it appends to `coa_files` and the row numbers it
      warns about: the `k`-th call and path belong to the `k`-th row whose
      template exists, the row at index `i` using the figures `drawn(i)`. */
  method GenerateAll(rows: seq<SheetRow>, templateExists: string -> bool, drawn: nat -> Components)
    returns (coaFiles: seq<string>, jobs: seq<Job>, skipped: seq<nat>)
    ensures |jobs| == |Served(rows, templateExists)| && |coaFiles| == |jobs|
    ensures forall k :: 0 <= k < |jobs| ==>
              Served(rows, templateExists)[k] < |rows| &&
              jobs[k] == Job(rows[Served(rows, templateExists)[k]], drawn(Served(rows, templateExists)[k])) &&
              coaFiles[k] == Output(jobs[k])
    ensures skipped == Skipped(rows, templateExists)
  {
    coaFiles, jobs, skipped := [], [], [];
    for idx := 0 to |rows|
      invariant |jobs| == |Served(rows[..idx], templateExists)| && |coaFiles| == |jobs|
      invariant forall k :: 0 <= k < |jobs| ==>
                  Served(rows[..idx], templateExists)[k] < idx &&
                  jobs[k] == Job(rows[Served(rows[..idx], templateExists)[k]],
                                 drawn(Served(rows[..idx], templateExists)[k])) &&
                  coaFiles[k] == Output(jobs[k])
      invariant skipped == Skipped(rows[..idx], templateExists)
    {
      var job := Job(rows[idx], drawn(idx));
      NextRow(rows, templateExists, idx);
      if templateExists(TemplateName(job)) {
        jobs := jobs + [job];
        coaFiles := coaFiles + [Output(job)];
      } else {
        skipped := skipped + [idx + 1];
      }
    }
    assert rows[..|rows|] == rows;
  }

  /** The loop's bookkeeping after row `i` extends that before it. */
  lemma NextRow(rows: seq<SheetRow>, templateExists: string -> bool, i: nat)
    requires i < |rows|
    ensures Served(rows[..i + 1], templateExists) ==
              Served(rows[..i], templateExists) + (if HasTemplate(rows[i], templateExists) then [i] else [])
    ensures Skipped(rows[..i + 1], templateExists) ==
              Skipped(rows[..i], templateExists) + (if HasTemplate(rows[i], templateExists) then [] else [i + 1])
  {
    assert rows[..i + 1][..i] == rows[..i];
  }

  // ---------------------------------------------------------------------
  // Properties
  // ---------------------------------------------------------------------

  /** Every row is either filled or reported as skipped. */
  lemma {:induction false} RowsAccounted(rows: seq<SheetRow>, templateExists: string -> bool)
    ensures |Served(rows, templateExists)| + |Skipped(rows, templateExists)| == |rows|
    decreases |rows|
  {
    if rows != [] {
      RowsAccounted(rows[..|rows| - 1], templateExists);
    }
  }

  /** The filled rows are listed in ascending order and lie within the sheet. */
  lemma {:induction false} ServedAscending(rows: seq<SheetRow>, templateExists: string -> bool)
    ensures forall k :: 0 <= k < |Served(rows, templateExists)| ==> Served(rows, templateExists)[k] < |rows|
    ensures forall k, l :: 0 <= k < l < |Served(rows, templateExists)| ==>
              Served(rows, templateExists)[k] < Served(rows, templateExists)[l]
    decreases |rows|
  {
    if rows != [] {
      ServedAscending(rows[..|rows| - 1], templateExists);
    }
  }

  /** Row `i` is filled exactly when its template exists. */
  lemma {:induction false} ServedExactly(rows: seq<SheetRow>, templateExists: string -> bool, i: int)
    ensures i in Served(rows, templateExists) <==> 0 <= i < |rows| && HasTemplate(rows[i], templateExists)
    decreases |rows|
  {
    if rows != [] {
      var last := |rows| - 1;
      ServedExactly(rows[..last], templateExists, i);
      ServedAscending(rows[..last], templateExists);
      if 0 <= i < last {
        assert rows[..last][i] == rows[i];
      }
    }
  }

  /** The reported row numbers are in ascending order and lie within the
      sheet. */
  lemma {:induction false} SkippedAscending(rows: seq<SheetRow>, templateExists: string -> bool)
    ensures forall k :: 0 <= k < |Skipped(rows, templateExists)| ==> 1 <= Skipped(rows, templateExists)[k] <= |rows|
    ensures forall k, l :: 0 <= k < l < |Skipped(rows, templateExists)| ==>
              Skipped(rows, templateExists)[k] < Skipped(rows, templateExists)[l]
    decreases |rows|
  {
    if rows != [] {
      SkippedAscending(rows[..|rows| - 1], templateExists);
    }
  }

  /** Row number `n` is reported exactly when row `n` has no template. */
  lemma {:induction false} SkippedExactly(rows: seq<SheetRow>, templateExists: string -> bool, n: int)
    ensures n in Skipped(rows, templateExists) <==>
              1 <= n <= |rows| && !HasTemplate(rows[n - 1], templateExists)
    decreases |rows|
  {
    if rows != [] {
      var last := |rows| - 1;
      SkippedExactly(rows[..last], templateExists, n);
      SkippedAscending(rows[..last], templateExists);
      if 1 <= n <= last {
        assert rows[..last][n - 1] == rows[n - 1];
      }
    }
  }

  /** The mapping is a dictionary: no key is listed twice. */
  lemma KeysDistinct()
    ensures forall i, j :: 0 <= i < j < |Keys| ==> Keys[i] != Keys[j]
  {
    forall i, j | 0 <= i < j < |Keys| ensures Keys[i] != Keys[j] {
      if |Keys[i]| == |Keys[j]| {
        assert Keys[i][0] != Keys[j][0] || Keys[i][1] != Keys[j][1] || Keys[i][|Keys[i]| - 1] != Keys[j][|Keys[j]| - 1];
      }
    }
  }

  /** Looking up the key of an entry that no earlier entry shares finds
      that entry's value. */
  lemma {:induction false} LookupFindsEntry(fields: seq<Field>, i: nat)
    requires i < |fields|
    requires forall j :: 0 <= j < i ==> fields[j].key != fields[i].key
    ensures Lookup(fields, fields[i].key) == Some(fields[i].value)
    decreases i
  {
    if i > 0 {
      var tail := fields[1..];
      assert tail[i - 1] == fields[i];
      forall j | 0 <= j < i - 1 ensures tail[j].key != tail[i - 1].key {
        assert tail[j] == fields[j + 1];
      }
      LookupFindsEntry(tail, i - 1);
    }
  }

  /** Every key of a row's mapping looks up the entry listed under it. */
  lemma FieldMapLookup(row: SheetRow, bestBefore: string, c: Components, i: nat)
    requires i < |Keys|
    ensures Lookup(FieldMap(row, bestBefore, c), Keys[i]) == Some(FieldMap(row, bestBefore, c)[i].value)
  {
    KeysDistinct();
    LookupFindsEntry(FieldMap(row, bestBefore, c), i);
  }

  /** The `BEST_BEFORE` entry of a mapping holds the best-before text it was
      built with (for a call, Data builds it from the row's `Date` column). */
  lemma BestBeforeField(row: SheetRow, bestBefore: string, c: Components)
    ensures Lookup(FieldMap(row, bestBefore, c), "BEST_BEFORE") == Some(bestBefore)
  {
    FieldMapLookup(row, bestBefore, c, 2);
  }

  /** A sheet of three rows whose second template is missing fills the first
      and third rows and reports row 2. */
  lemma SecondTemplateMissing(r1: SheetRow, r2: SheetRow, r3: SheetRow, templateExists: string -> bool)
    requires HasTemplate(r1, templateExists) && !HasTemplate(r2, templateExists) && HasTemplate(r3, templateExists)
    ensures Served([r1, r2, r3], templateExists) == [0, 2]
    ensures Skipped([r1, r2, r3], templateExists) == [2]
  {
    var rows := [r1, r2, r3];
    assert rows[..2] == [r1, r2] && rows[..1] == [r1] && rows[..0] == [];
    NextRow(rows, templateExists, 0);
    NextRow(rows, templateExists, 1);
    NextRow(rows, templateExists, 2);
    assert rows[..3] == rows;
  }
}
