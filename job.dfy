/**
 * The compilation job of one `/generate` request: file names derived from
 * the job id, the template read, the write of `id.tex`, up to two compiler
 * passes, the check for `id.pdf`, the removal of the intermediate files and
 * the removal of the PDF when the response is closed.
 *
 * The filesystem is a map from file name to content; the compiler is an
 * oracle that, per pass, gives the exit status, the error output and the
 * files the pass leaves behind.
 */
module Job {
  import opened Wrappers
  import opened Substitution

  /** The extensions of a job's files. */
  datatype Ext = Tex | Pdf | Log | Aux

  function ExtText(e: Ext): string {
    match e
    case Tex => "tex"
    case Pdf => "pdf"
    case Log => "log"
    case Aux => "aux"
  }

  /** The name of a job's file: `id.ext`. */
  function FileName(id: string, e: Ext): string {
    id + "." + ExtText(e)
  }

  /** Different ids or different extensions give different file names. */
  lemma FileNameInjective(id1: string, e1: Ext, id2: string, e2: Ext)
    ensures FileName(id1, e1) == FileName(id2, e2) <==> id1 == id2 && e1 == e2
  {
    if FileName(id1, e1) == FileName(id2, e2) {
      var n := FileName(id1, e1);
      assert |id1| == |id2|;
      assert id1 == n[..|id1|] == id2;
      assert ExtText(e1) == n[|id1| + 1..] == ExtText(e2);
    }
  }

  /** Every file a job can create. */
  function JobFiles(id: string): set<string> {
    {FileName(id, Tex), FileName(id, Pdf), FileName(id, Log), FileName(id, Aux)}
  }

  /** Jobs with different ids never share a file name. */
  lemma DistinctJobsDisjoint(id1: string, id2: string)
    requires id1 != id2
    ensures JobFiles(id1) !! JobFiles(id2)
  {
    forall e1: Ext, e2: Ext
      ensures FileName(id1, e1) != FileName(id2, e2)
    {
      FileNameInjective(id1, e1, id2, e2);
    }
  }

  /** What one compiler pass reports, and the contents of the files it leaves behind. */
  datatype Pass = Pass(exitCode: int, stderr: string, pdf: Option<string>, log: Option<string>, aux: Option<string>)

  function Put(files: map<string, string>, name: string, content: Option<string>): map<string, string> {
    if content.Some? then files[name := content.value] else files
  }

  /** The files after one pass over job `id`. */
  function AfterPass(files: map<string, string>, id: string, pass: Pass): map<string, string> {
    Put(Put(Put(files, FileName(id, Pdf), pass.pdf), FileName(id, Log), pass.log), FileName(id, Aux), pass.aux)
  }

  /** The files after the given passes, one after the other. */
  function AfterPasses(files: map<string, string>, id: string, passes: seq<Pass>): map<string, string>
    decreases |passes|
  {
    if passes == [] then files
    else AfterPass(AfterPasses(files, id, passes[..|passes| - 1]), id, passes[|passes| - 1])
  }

  /** Compiler passes of job `id` change only its pdf, log and aux files (not even `id.tex`), and remove none. */
  lemma {:induction false} PassesKeepOtherFiles(files: map<string, string>, id: string, passes: seq<Pass>)
    ensures AfterPasses(files, id, passes) - {FileName(id, Pdf), FileName(id, Log), FileName(id, Aux)}
         == files - {FileName(id, Pdf), FileName(id, Log), FileName(id, Aux)}
    ensures AfterPasses(files, id, passes) - JobFiles(id) == files - JobFiles(id)
    ensures files.Keys <= AfterPasses(files, id, passes).Keys <= files.Keys + JobFiles(id)
  {
    if passes != [] {
      PassesKeepOtherFiles(files, id, passes[..|passes| - 1]);
    }
  }

  /** The outcome of reading `templates/report.tex`. */
  datatype TemplateRead = Loaded(text: string) | ReadFailed(reason: string)

  /** The handler's answer: the PDF as an attachment, or a JSON error with a status code. */
  datatype Response =
    | Attachment(path: string, downloadName: string, mimetype: string)
    | Failure(status: int, message: string)

  const DownloadName: string := "AI_Cost_Savings_Report.pdf"
  const PdfMimetype: string := "application/pdf"
  const ServerError: int := 500

  /**
   * The working directory the handler runs in, as the files it holds, with
   * a record of the compiler passes run in it so far.
   */
  class WorkArea {
    var files: map<string, string>
    ghost var compilerRuns: seq<Pass>

    constructor (initial: map<string, string>)
      ensures files == initial && compilerRuns == []
    {
      files := initial;
      compilerRuns := [];
    }

    method Exists(name: string) returns (present: bool)
      ensures present <==> name in files
    {
      present := name in files;
    }

    /** Writes a file, creating or replacing it. */
    method Write(name: string, content: string)
      modifies this
      ensures files == old(files)[name := content]
      ensures compilerRuns == old(compilerRuns)
    {
      files := files[name := content];
    }

    /** Removes a file, which must exist. */
    method Remove(name: string)
      requires name in files
      modifies this
      ensures files == old(files) - {name}
      ensures compilerRuns == old(compilerRuns)
    {
      files := files - {name};
    }

    /** One compiler pass over `id.tex`: the files the pass produces appear. */
    method RunCompiler(id: string, pass: Pass)
      modifies this
      ensures files == AfterPass(old(files), id, pass)
      ensures compilerRuns == old(compilerRuns) + [pass]
    {
      files := AfterPass(files, id, pass);
      compilerRuns := compilerRuns + [pass];
    }
  }

  /** Removing some of a job's files leaves every other file as it was. */
  lemma IntermediatesAreJobFiles(files: map<string, string>, id: string)
    ensures (files - {FileName(id, Tex), FileName(id, Log), FileName(id, Aux)}) - JobFiles(id) == files - JobFiles(id)
  {
  }

  /** The names of the files with the given extensions. */
  function Names(id: string, exts: seq<Ext>): set<string>
    decreases |exts|
  {
    if exts == [] then {} else Names(id, exts[..|exts| - 1]) + {FileName(id, exts[|exts| - 1])}
  }

  /** Removes `id.tex`, `id.log` and `id.aux`, each one only if it exists. */
  method RemoveIntermediates(fs: WorkArea, id: string)
    modifies fs
    ensures fs.files == old(fs.files) - {FileName(id, Tex), FileName(id, Log), FileName(id, Aux)}
    ensures fs.compilerRuns == old(fs.compilerRuns)
  {
    var exts := [Tex, Log, Aux];
    var i := 0;
    while i < |exts|
      invariant 0 <= i <= |exts|
      invariant fs.files == old(fs.files) - Names(id, exts[..i])
      invariant fs.compilerRuns == old(fs.compilerRuns)
    {
      var name := FileName(id, exts[i]);
      var present := fs.Exists(name);
      if present {
        fs.Remove(name);
      }
      assert exts[..i + 1][..i] == exts[..i];
      i := i + 1;
    }
    assert exts[..3] == exts;
  }

  /** The hook run when the response is closed: removes `id.pdf` if it exists. */
  method Close(fs: WorkArea, id: string)
    modifies fs
    ensures fs.files == old(fs.files) - {FileName(id, Pdf)}
    ensures fs.compilerRuns == old(fs.compilerRuns)
  {
    var name := FileName(id, Pdf);
    var present := fs.Exists(name);
    if present {
      fs.Remove(name);
    }
  }

  /**
   * The compile loop: the compiler runs on `id.tex` once per pass, in
   * order, and the loop stops after the first pass with a non-zero exit.
   * `clean` says whether every pass run exited with 0, which happens
   * exactly when both passes ran and the second one exited with 0.
   */
  method CompilePasses(fs: WorkArea, id: string, passes: seq<Pass>) returns (clean: bool, runs: nat)
    requires |passes| == 2
    modifies fs
    ensures 1 <= runs <= 2
    ensures forall j :: 0 <= j < runs - 1 ==> passes[j].exitCode == 0
    ensures clean <==> passes[runs - 1].exitCode == 0
    ensures clean ==> runs == 2
    ensures fs.files == AfterPasses(old(fs.files), id, passes[..runs])
    ensures fs.compilerRuns == old(fs.compilerRuns) + passes[..runs]
  {
    var i := 0;
    while i < 2
      invariant 0 <= i <= 2
      invariant fs.files == AfterPasses(old(fs.files), id, passes[..i])
      invariant forall j :: 0 <= j < i ==> passes[j].exitCode == 0
      invariant fs.compilerRuns == old(fs.compilerRuns) + passes[..i]
    {
      fs.RunCompiler(id, passes[i]);
      assert passes[..i + 1][..i] == passes[..i];
      if passes[i].exitCode != 0 {
        return false, i + 1;
      }
      i := i + 1;
    }
    return true, 2;
  }

  /**
   * After two clean passes: a missing `id.pdf` is an error that removes
   * nothing; otherwise the intermediate files are removed and the PDF is
   * the attachment.
   */
  method Deliver(fs: WorkArea, id: string) returns (response: Response)
    modifies fs
    ensures FileName(id, Pdf) !in old(fs.files) ==>
      response == Failure(ServerError, "PDF file was not created") && fs.files == old(fs.files)
    ensures FileName(id, Pdf) in old(fs.files) ==>
      && response == Attachment(FileName(id, Pdf), DownloadName, PdfMimetype)
      && fs.files == old(fs.files) - {FileName(id, Tex), FileName(id, Log), FileName(id, Aux)}
    ensures fs.compilerRuns == old(fs.compilerRuns)
  {
    var pdfFile := FileName(id, Pdf);
    var pdfExists := fs.Exists(pdfFile);
    if !pdfExists {
      return Failure(ServerError, "PDF file was not created");
    }
    RemoveIntermediates(fs, id);
    response := Attachment(pdfFile, DownloadName, PdfMimetype);
  }

  /**
   * The handler from the template read to the response: `runs` is how
   * many times the compiler ran, and the passes run are the first `runs`
   * of `passes`. The document written to `id.tex` is the
   * substituted template; the compiler runs at most twice and stops at the
   * first non-zero exit; a missing PDF after two clean passes is its own
   * error; only the success path removes files, and it removes exactly
   * `id.tex`, `id.log` and `id.aux`. No file outside the job's own changes.
   * The handler as written is `variant == AsWritten`.
   */
  method GeneratePdf(fs: WorkArea, id: string, template: TemplateRead, fields: seq<Field>,
                     writeError: Option<string>, passes: seq<Pass>, variant: Variant)
    returns (response: Response, runs: nat)
    requires ValidFields(fields) && |passes| == 2
    modifies fs
    ensures runs <= 2
    ensures fs.compilerRuns == old(fs.compilerRuns) + passes[..runs]
    ensures fs.files - JobFiles(id) == old(fs.files) - JobFiles(id)
    ensures template.ReadFailed? ==>
      && response == Failure(ServerError, "Could not read template file: " + template.reason)
      && runs == 0 && fs.files == old(fs.files)
    ensures template.Loaded? && writeError.Some? ==>
      && response == Failure(ServerError, "Could not write temporary file: " + writeError.value)
      && runs == 0 && fs.files == old(fs.files)
    ensures template.Loaded? && writeError.None? ==>
      var written := old(fs.files)[FileName(id, Tex) := SubstituteAll(template.text, fields, variant)];
      && 1 <= runs
      && (forall j :: 0 <= j < runs - 1 ==> passes[j].exitCode == 0)
      && (passes[runs - 1].exitCode != 0 ==>
            && response == Failure(ServerError, "PDF generation failed: " + passes[runs - 1].stderr)
            && fs.files == AfterPasses(written, id, passes[..runs]))
      && (passes[runs - 1].exitCode == 0 ==>
            var compiled := AfterPasses(written, id, passes);
            && runs == 2
            && (FileName(id, Pdf) !in compiled ==>
                  response == Failure(ServerError, "PDF file was not created") && fs.files == compiled)
            && (FileName(id, Pdf) in compiled ==>
                  && response == Attachment(FileName(id, Pdf), DownloadName, PdfMimetype)
                  && fs.files == compiled - {FileName(id, Tex), FileName(id, Log), FileName(id, Aux)}))
  {
    runs := 0;
    var texFile := FileName(id, Tex);
    if template.ReadFailed? {
      return Failure(ServerError, "Could not read template file: " + template.reason), 0;
    }
    var doc := Substitute(template.text, fields, variant);
    if writeError.Some? {
      return Failure(ServerError, "Could not write temporary file: " + writeError.value), 0;
    }
    fs.Write(texFile, doc);
    ghost var written := fs.files;
    assert written - JobFiles(id) == old(fs.files) - JobFiles(id);
    var clean;
    clean, runs := CompilePasses(fs, id, passes);
    PassesKeepOtherFiles(written, id, passes[..runs]);
    if !clean {
      return Failure(ServerError, "PDF generation failed: " + passes[runs - 1].stderr), runs;
    }
    assert passes[..runs] == passes;
    ghost var compiled := fs.files;
    response := Deliver(fs, id);
    IntermediatesAreJobFiles(compiled, id);
  }

  /**
   * A whole request: the handler, then, when a PDF was sent, the close
   * hook. The response is the handler's on every path. After a success no
   * file of the job is left and every other file is as before; a failed
   * template read or write touches nothing; every failure after the write
   * leaves `id.tex` and what the compiler wrote behind.
   */
  method Serve(fs: WorkArea, id: string, template: TemplateRead, fields: seq<Field>,
               writeError: Option<string>, passes: seq<Pass>, variant: Variant)
    returns (response: Response, runs: nat)
    requires ValidFields(fields) && |passes| == 2
    modifies fs
    ensures runs <= 2
    ensures fs.compilerRuns == old(fs.compilerRuns) + passes[..runs]
    ensures fs.files - JobFiles(id) == old(fs.files) - JobFiles(id)
    ensures template.ReadFailed? ==>
      && response == Failure(ServerError, "Could not read template file: " + template.reason)
      && runs == 0 && fs.files == old(fs.files)
    ensures template.Loaded? && writeError.Some? ==>
      && response == Failure(ServerError, "Could not write temporary file: " + writeError.value)
      && runs == 0 && fs.files == old(fs.files)
    ensures template.Loaded? && writeError.None? ==>
      var written := old(fs.files)[FileName(id, Tex) := SubstituteAll(template.text, fields, variant)];
      && 1 <= runs
      && (forall j :: 0 <= j < runs - 1 ==> passes[j].exitCode == 0)
      && (passes[runs - 1].exitCode != 0 ==>
            && response == Failure(ServerError, "PDF generation failed: " + passes[runs - 1].stderr)
            && fs.files == AfterPasses(written, id, passes[..runs])
            && FileName(id, Tex) in fs.files)
      && (passes[runs - 1].exitCode == 0 ==>
            var compiled := AfterPasses(written, id, passes);
            && runs == 2
            && (FileName(id, Pdf) !in compiled ==>
                  && response == Failure(ServerError, "PDF file was not created")
                  && fs.files == compiled
                  && FileName(id, Tex) in fs.files)
            && (FileName(id, Pdf) in compiled ==>
                  && response == Attachment(FileName(id, Pdf), DownloadName, PdfMimetype)
                  && fs.files == old(fs.files) - JobFiles(id)))
  {
    response, runs := GeneratePdf(fs, id, template, fields, writeError, passes, variant);
    if response.Attachment? {
      ghost var sent := fs.files;
      Close(fs, id);
      assert fs.files.Keys == sent.Keys - {FileName(id, Pdf)};
      assert fs.files == old(fs.files) - JobFiles(id);
    } else if template.Loaded? && writeError.None? {
      ghost var written := old(fs.files)[FileName(id, Tex) := SubstituteAll(template.text, fields, variant)];
      PassesKeepOtherFiles(written, id, passes[..runs]);
    }
  }
}
