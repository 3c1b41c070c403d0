/** The names of the files one row of the sheet touches: its template
    `COA <code>.docx`, and its certificate `COA-<batch>-<code>.docx` in the
    `generated_coas` directory, where the batch number has every `/`, `\`
    and space replaced by `_`. */
module FileNames {
  import opened Text

  const OutputDir: string := "generated_coas"

  /** The characters the batch number must not carry into a file name. */
  predicate IsSeparator(c: char)
  {
    c == '/' || c == '\\' || c == ' '
  }

  /** `batch.replace("/", "_").replace("\\", "_").replace(" ", "_")`. */
  function SafeBatch(batch: string): string
  {
    ReplaceAll(ReplaceAll(ReplaceAll(batch, "/", "_"), "\\", "_"), " ", "_")
  }

  /** `f"COA-{safe_batch}-{code}.docx"`. */
  function OutputFileName(batch: string, code: string): string
  {
    "COA-" + SafeBatch(batch) + "-" + code + ".docx"
  }

  /** `os.path.join("generated_coas", filename)`: the file name never starts
      with `/`, so the join is the directory, `/`, and the name. */
  function OutputPath(batch: string, code: string): string
  {
    OutputDir + "/" + OutputFileName(batch, code)
  }

  /** `f"COA {code}.docx"`, looked up relative to the working directory. */
  function TemplateFileName(code: string): string
  {
    "COA " + code + ".docx"
  }

  // ---------------------------------------------------------------------
  // Properties

  /** Each character of the batch number is kept, or becomes `_` when it is
      a separator; the length does not change. */
  lemma SafeBatchPointwise(batch: string)
    ensures |SafeBatch(batch)| == |batch|
    ensures forall i :: 0 <= i < |batch| ==>
              SafeBatch(batch)[i] == (if IsSeparator(batch[i]) then '_' else batch[i])
  {
    var s1 := ReplaceAll(batch, "/", "_");
    var s2 := ReplaceAll(s1, "\\", "_");
    ReplaceCharAt(batch, '/', '_');
    ReplaceCharAt(s1, '\\', '_');
    ReplaceCharAt(s2, ' ', '_');
  }

  /** The sanitised batch number holds no separator. */
  lemma SafeBatchHasNoSeparator(batch: string)
    ensures forall i :: 0 <= i < |SafeBatch(batch)| ==> !IsSeparator(SafeBatch(batch)[i])
  {
    SafeBatchPointwise(batch);
  }

  /** A batch number without separators is used as it is. */
  lemma SafeBatchKeepsPlainBatch(batch: string)
    requires forall i :: 0 <= i < |batch| ==> !IsSeparator(batch[i])
    ensures SafeBatch(batch) == batch
  {
    SafeBatchPointwise(batch);
  }

  /** Sanitising twice is sanitising once. */
  lemma SafeBatchIdempotent(batch: string)
    ensures SafeBatch(SafeBatch(batch)) == SafeBatch(batch)
  {
    SafeBatchHasNoSeparator(batch);
    SafeBatchKeepsPlainBatch(SafeBatch(batch));
  }

  /** Batch numbers that differ only in which separator they use name the
      same certificate, so the later row overwrites the earlier one. */
  lemma SeparatorsCollide(code: string)
    ensures OutputFileName("A/1", code) == OutputFileName("A 1", code)
  {
    SafeBatchPointwise("A/1");
    SafeBatchPointwise("A 1");
    assert SafeBatch("A/1") == "A_1" == SafeBatch("A 1");
  }

  /** The batch number brings no `/` into the certificate's name; only the
      product code, which is not sanitised, can. */
  lemma SlashOnlyFromCode(batch: string, code: string)
    ensures '/' in OutputFileName(batch, code) <==> '/' in code
  {
    SafeBatchHasNoSeparator(batch);
    assert '/' !in SafeBatch(batch);
  }

  /** The certificate and the template of a row have different names. */
  lemma OutputIsNotTemplate(batch: string, code: string)
    ensures OutputFileName(batch, code) != TemplateFileName(code)
  {
    assert OutputFileName(batch, code)[3] == '-' != ' ' == TemplateFileName(code)[3];
  }
}
