# PDF generation handler: escaping, declaration rewriting and job lifecycle

This project models the core of the `/generate` handler (`generate_pdf` in
`app.py`) of a small PDF-generation backend. The handler takes a JSON object
of field values. It escapes each value for LaTeX and writes it into the
matching `\newcommand{\KEY}{...}` declaration of a fixed template. It writes
the result to `id.tex`, runs `pdflatex` on it up to twice, checks that
`id.pdf` was produced, and removes the job's intermediate files. It sends the
PDF and removes it when the response is closed.

The model has four modules:

- `Escaper` — the value escaper. It is a per-character map. The handler's
  literal chain of six `str.replace` calls is modelled too, and proved equal
  to that map. An inverse, `Unescape`, shows that escaping loses nothing.
- `Declarations` — one `re.sub` pass of the pattern
  `(\\newcommand{\\K}{)(.*?)}`, written as a scanner over the text. A match
  is the literal prefix `\newcommand{\K}{` followed by the shortest run of
  non-newline characters that ends at `}`. Matches are found left to right
  and never overlap.
- `Substitution` — the loop over the request's fields. Each pass works on
  the previous pass's result, so the final document is a left fold of
  single-key rewrites.
- `Job` — the lifecycle of one job: the file names derived from the job id,
  the working directory as a map from file name to content (class
  `WorkArea`), the compile loop, the clean-up loop and the close hook.

The handler's I/O becomes inputs:

- the outcome of the template read;
- an optional failure of the `id.tex` write;
- a sequence of two compiler passes, each giving an exit status, the error
  output and the contents of the `pdf`, `log` and `aux` files that pass
  leaves behind.

The job id is a parameter, standing in for `uuid.uuid4()`.

The model follows `app.py` as it stands, including these points about it:

- It substitutes any JSON key. It has no allow-list of field names and does
  no replacement at the places a macro is used.
- It does not check that the compiler is on the path.
- It removes no file on a failure path. After the write, every failure
  leaves `id.tex` behind, plus whatever the compiler wrote (`Job.Serve`
  states this).
- It can stop after the first compiler pass. So it runs the compiler at most
  twice, not always twice (`Job.GeneratePdf` states this over the record of
  compiler runs kept by `WorkArea`).

## Model

| member | source | states |
|---|---|---|
| `Escaper.EscapeChar` | app.py:50-51 | `&`, `%`, `$`, `_` and `#` each become a backslash followed by the character, and `^` becomes `\^{}`; every other character, `\`, `{` and `}` included, is kept as it is |
| `Escaper.EscapeNoBareSpecial` | app.py:50-51 | in escaped text every `&`, `%`, `$`, `_`, `#` and `^` stands right after a backslash |
| `Escaper.EscapeConcat` | app.py:50-51 | Escape(a + b) == Escape(a) + Escape(b) |
| `Escaper.EscapePlain` | app.py:50-51 | text without special characters is returned unchanged |
| `Escaper.EscapeLength` | app.py:50-51 | the escaped length is the input length plus one per `&`, `%`, `$`, `_`, `#` and three per `^` |
| `Escaper.EscapeExample` | app.py:50-51 | `A & B_Co` escapes to `A \& B\_Co` |
| `Escaper.UnescapeEscape` | app.py:50-51 | Unescape(Escape(s)) == s: escaping is injective |
| `Escaper.ChainIsEscape` | app.py:50-51 | the six chained `str.replace` calls, in the handler's order, compute exactly the per-character escape |
| `Declarations.BodyEnd` | app.py:52 | `(.*?)}` stops at the first `}` when no newline comes before it, and fails when a newline or the end of the text comes first |
| `Declarations.MatchAt` | app.py:52 | a match is the prefix, then a body with no `}` and no newline, then `}`; there is no match exactly when the prefix is absent or a newline comes before every `}` |
| `Declarations.CopyUnmatched` | app.py:53 | text in front of which no match starts is copied unchanged, and the rest is rewritten on its own |
| `Declarations.NoMatchIdentity` | app.py:53 | a document in which the key's pattern matches nowhere is left unchanged |
| `Declarations.DeclarationReplaced` | app.py:52-53 | a declaration whose body has no `}` and no newline is replaced as one match, including its closing `}`, and the scan resumes after it |
| `Declarations.KeysMatchExactly` | app.py:52 | the prefix for one key never begins the declaration of a different key, so `first` does not match `\newcommand{\firstname}{` |
| `Declarations.KeyIsNotNewcommand` | app.py:52 | the backslash right before a key never starts a `\newcommand{\` prefix |
| `Declarations.OtherDeclarationCopied` | app.py:52-53 | another key's declaration is copied unchanged when its body holds no backslash |
| `Declarations.ClosedMatch` | app.py:52 | the prefix, a body with no `}` and no newline, and `}` form exactly one match, ending at that `}` |
| `Declarations.UnclosedNoMatch` | app.py:52 | after the prefix, a newline before any `}` means that no match starts there |
| `Substitution.Substitute` | app.py:47-53 | the loop's document is the left fold of single-key rewrites over the fields, in the order the request lists them |
| `Substitution.SubstituteStep` | app.py:48-53 | one more field is one more rewrite pass, applied to the previous result |
| `Substitution.UndeclaredKeysKeepTemplate` | app.py:48-53 | fields whose keys have no declaration in the template leave it unchanged; an empty request gives the template itself |
| `Substitution.RewriteDeclaration` | app.py:52-53 | a declaration of the key becomes the prefix plus the escaped value, with the closing `}` only when the brace is restored |
| `Substitution.EscapeKeepsBodyClean` | app.py:50-51 | a value with no `}`, `^` or newline escapes to text with no `}` or newline |
| `Substitution.AsWrittenRewrite` | app.py:53 | as written, `\newcommand{\K}{body}` followed by a newline becomes `\newcommand{\K}{` + the escaped value + the newline |
| `Substitution.AsWrittenLeavesDeclarationOpen` | app.py:53 | as written, a declaration followed directly by a newline no longer matches the pattern once rewritten: it is left without its closing brace |
| `Substitution.AsWrittenExample` | app.py:53 | as written, `\newcommand{\name}{Default}` with value `Acme` becomes `\newcommand{\name}{Acme` |
| `Substitution.BraceRestoredRewrite` | app.py:53 | with the brace restored, `\newcommand{\K}{body}` becomes `\newcommand{\K}{` + the escaped value + `}` |
| `Substitution.BraceRestoredKeepsDeclaration` | app.py:53 | with the brace restored, the rewritten declaration is again a complete match whose body is exactly the escaped value |
| `Job.FileNameInjective` | app.py:31-32 | `id.ext` names are equal exactly when the ids and the extensions are equal |
| `Job.DistinctJobsDisjoint` | app.py:30-32 | jobs with different ids never share a file |
| `Job.PassesKeepOtherFiles` | app.py:67-72 | compiler passes over a job add or replace only that job's pdf, log and aux files |
| `Job.WorkArea.Exists` | app.py:90 | reports whether the file is present |
| `Job.WorkArea.Write` | app.py:57-58 | the file now holds the content; no compiler run is recorded |
| `Job.WorkArea.Remove` | app.py:91 | the file is gone and nothing else changed, the record of compiler runs included |
| `Job.WorkArea.RunCompiler` | app.py:68-72 | the files the pass produces appear, and the pass is appended to the record of compiler runs |
| `Job.RemoveIntermediates` | app.py:88-91 | exactly `id.tex`, `id.log` and `id.aux` are removed, whichever of them exist, and the compiler is not run |
| `Job.Close` | app.py:102-105 | only `id.pdf` is removed, if it exists, and the compiler is not run |
| `Job.CompilePasses` | app.py:67-77 | the compiler runs once per pass, in order, and stops after the first non-zero exit; the files and the record of compiler runs are those of exactly the passes run; `clean` holds exactly when both passes ran and exited with 0 |
| `Job.Deliver` | app.py:80-99 | a missing `id.pdf` gives `PDF file was not created` and removes nothing; otherwise exactly `id.tex`, `id.log` and `id.aux` are removed and the PDF is the attachment; the compiler is not run |
| `Job.GeneratePdf` | app.py:38-107 | the template read fails before any file is written. A write failure writes nothing. The compiler runs at most twice: the passes appended to the record of compiler runs are exactly the first `runs` of the two given. It stops at the first non-zero exit with `PDF generation failed: ` + its stderr. After two clean passes a missing `id.pdf` gives `PDF file was not created`. Failure paths remove nothing. Success removes exactly tex/log/aux and answers with the PDF attachment. `id.tex` holds the substituted template. No file outside the job's changes |
| `Job.Serve` | app.py:29-107 | the response is the handler's on every path: read failure, write failure, `PDF generation failed: ` + stderr at the first non-zero exit, `PDF file was not created`, or the PDF attachment. A failed read or write changes no file and runs no compiler. A compile failure leaves `id.tex` and the compiler's files as the passes run produced them. After a success and the close hook no file of the job remains and every other file is as before. At most two compiler passes run, exactly the first `runs` of those given |

## Left out

- Flask routing, `request.json` decoding, CORS and logging are not modelled (app.py:1-27). Neither are the port and environment handling (app.py:115-117), because they are web and process plumbing.
- `send_file` streaming is reduced to an `Attachment` response carrying the path, the download name and the MIME type (app.py:94-99).
- The real `pdflatex` process and the real filesystem are out. The compiler is an oracle of two passes, and a pass can only add or replace the job's pdf, log and aux files.
- A write failure is modelled as leaving the files unchanged. A partly written `id.tex` is not modelled.
- `uuid.uuid4()` is out: the job id is a parameter. Jobs are isolated only through `Job.DistinctJobsDisjoint`, and concurrency itself is out of scope.
- `str(value)` of non-string JSON values is out: every value is given as its text.
- General Python regex semantics are out. Keys are restricted to letters, digits and `_` (`ValidKey`), since the handler inserts the key into the pattern without escaping it. For any other key the model says nothing.
- The handler iterates over a `dict`, so keys are unique. The model takes the fields as a sequence in the request's order and does not require the keys to be distinct.
- The generic exception arms (app.py:108-113) are out, because they wrap errors of foreign code.
- `Job.Serve` runs the close hook right after a successful response. It does not model a client that disconnects during delivery, though the hook runs in that case too.
- An allow-list of field names, invocation-site substitution and a check that the compiler is on the path do not appear in `app.py`, so they are not modelled.
- There is no time bound on the compiler call in the source, and none is modelled.
- Substitution.AsWrittenLeavesDeclarationOpen: stated only for a declaration followed directly by a newline, as a declaration that ends its template line is, and only for values with no `}`, `^` or newline, whose escaped form cannot end a declaration body early. When another `}` follows the declaration on the same line, that `}` can close the rewritten declaration, so the result matches again.
- Substitution.BraceRestoredKeepsDeclaration: stated only for values with no `}`, `^` or newline, for the same reason.
- Declarations.OtherDeclarationCopied: stated only for bodies with no backslash. A body may hold a nested declaration of the first key, and that one is rewritten.

## Findings

| source | as written | input that shows it | evidently intended | confidence | as-written member | corrected member |
|---|---|---|---|---|---|---|
| app.py:53 | the replacement is `group(1) + value`, so the `}` the match consumed is not written back | key `name`, template line `\newcommand{\name}{Default}` and a newline, value `Acme`: the result is `\newcommand{\name}{Acme` and a newline, an unclosed declaration | `\newcommand{\name}{Acme}` | high, not executed | `Substitution.AsWrittenLeavesDeclarationOpen` | `Substitution.BraceRestoredKeepsDeclaration` |

The rewrite, the fold (`Substitution.Substitute`) and the handler
(`Job.GeneratePdf`, `Job.Serve`) all take a `Variant`. `AsWritten` is the
code as it stands. `BraceRestored` re-emits the closing brace. Every fold
and lifecycle property above is proved for both variants.
