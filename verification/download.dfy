/** `downloadPDF` and `fileExists` (main.go:90-96, 193-259) as a pure gate
    machine. Everything the function learns from the outside world (whether
    the request could be built, the server's answer, whether the file could be
    created and written) is an input, and the output directory is a map from
    entry names to entries. */
module Download {
  import opened Text
  import opened Filename
  import opened Paths

  newtype byte = x: int | 0 <= x < 256

  /** An entry of the output directory. */
  datatype Node = File(contents: seq<byte>) | Directory

  /** The entries of the output directory, by name. */
  type Dir = map<string, Node>

  /** How `buf.WriteTo(out)` ends: everything written, or an error after the
      first `kept` bytes reached the file. */
  datatype WriteResult = Written | WriteFailed(kept: nat)

  /** The outside world as one download sees it. */
  datatype Env = Env(
    requestBuilds: bool,   // http.NewRequest accepted the URL
    transportOk: bool,     // client.Do returned a response
    status: int,           // resp.StatusCode
    contentType: string,   // the Content-Type header
    body: seq<byte>,       // the bytes io.Copy read
    readOk: bool,          // io.Copy ended without error
    createOk: bool,        // os.Create would succeed on a creatable path
    write: WriteResult)

  /** Why a download stopped. */
  datatype Reason =
    | RequestInvalid
    | TransportError
    | StatusNotOk(status: int)
    | WrongContentType(contentType: string)
    | ReadError
    | EmptyBody
    | CreateError
    | WriteError

  /** `downloadPDF`'s result: skipped because the file exists, failed at a
      gate, or done with the number of bytes saved. Only `Done` is `true` in
      the source. */
  datatype Outcome = Skipped | Failed(reason: Reason) | Done(bytes: nat)

  datatype Step = Step(outcome: Outcome, dir: Dir)

  const StatusOK: int := 200

  /** `filepath.Join(outputDir, name)` is the output directory itself when the
      name is empty or "."; any other name without '/' is an entry of it. */
  predicate NamesOutputDir(name: string) { name == "" || name == "." }

  function Lookup(dir: Dir, name: string): Option<Node>
  {
    if NamesOutputDir(name) then Some(Directory)
    else if name in dir then Some(dir[name])
    else None
  }

  /** `fileExists`: the path exists and is not a directory. A failing Stat
      counts as absence. */
  predicate FileExists(dir: Dir, name: string)
  {
    Lookup(dir, name).Some? && Lookup(dir, name).value.File?
  }

  /** The Content-Type test of main.go:228-229. */
  predicate AcceptedContentType(ct: string)
  {
    Contains(ct, "binary/octet-stream") || Contains(ct, "application/pdf")
  }

  /** `os.Create` fails on a directory and when the environment refuses it. */
  predicate CanCreate(dir: Dir, name: string, env: Env)
  {
    env.createOk && Lookup(dir, name) != Some(Directory)
  }

  function Min(a: nat, b: nat): nat { if a <= b then a else b }

  /** The name a URL is saved under (main.go:194). */
  function TargetName(url: string): string
  {
    ToLowerAscii(UrlToFilename(url))
  }

  /** `downloadPDF(url, outputDir)`. */
  function DownloadPdf(url: string, dir: Dir, env: Env): Step
  {
    SaveAs(TargetName(url), dir, env)
  }

  /** The body of `downloadPDF` once the file name is known. */
  function SaveAs(name: string, dir: Dir, env: Env): Step
  {
    if FileExists(dir, name) then Step(Skipped, dir)
    else if !env.requestBuilds then Step(Failed(RequestInvalid), dir)
    else if !env.transportOk then Step(Failed(TransportError), dir)
    else if env.status != StatusOK then Step(Failed(StatusNotOk(env.status)), dir)
    else if !AcceptedContentType(env.contentType) then Step(Failed(WrongContentType(env.contentType)), dir)
    else if !env.readOk then Step(Failed(ReadError), dir)
    else if |env.body| == 0 then Step(Failed(EmptyBody), dir)
    else if !CanCreate(dir, name, env) then Step(Failed(CreateError), dir)
    else
      match env.write
      case Written => Step(Done(|env.body|), dir[name := File(env.body)])
      case WriteFailed(kept) =>
        Step(Failed(WriteError), dir[name := File(env.body[..Min(kept, |env.body|)])])
  }

  // ---------------------------------------------------------------------------
  // The gates as data: an independent statement of the order of the checks.

  datatype Gate = Gate(passes: bool, reason: Reason)

  /** The checks after the existence test, in the order the source makes them. */
  function Gates(dir: Dir, name: string, env: Env): seq<Gate>
  {
    [ Gate(env.requestBuilds, RequestInvalid),
      Gate(env.transportOk, TransportError),
      Gate(env.status == StatusOK, StatusNotOk(env.status)),
      Gate(AcceptedContentType(env.contentType), WrongContentType(env.contentType)),
      Gate(env.readOk, ReadError),
      Gate(|env.body| > 0, EmptyBody),
      Gate(CanCreate(dir, name, env), CreateError),
      Gate(env.write.Written?, WriteError) ]
  }

  /** The reason of the first gate that does not pass, if any. */
  function FirstFailure(gates: seq<Gate>): (r: Option<Reason>)
    ensures r.None? <==> forall k :: 0 <= k < |gates| ==> gates[k].passes
    ensures r.Some? ==> exists k :: 0 <= k < |gates| && !gates[k].passes && gates[k].reason == r.value &&
                                   forall j :: 0 <= j < k ==> gates[j].passes
  {
    if |gates| == 0 then None
    else if !gates[0].passes then
      Some(gates[0].reason)
    else
      var r := FirstFailure(gates[1..]);
      if r.Some? then
        var k :| 0 <= k < |gates[1..]| && !gates[1..][k].passes && gates[1..][k].reason == r.value &&
                 forall j :: 0 <= j < k ==> gates[1..][j].passes;
        assert gates[k + 1] == gates[1..][k];
        assert forall j :: 0 <= j < k + 1 ==> gates[j].passes by {
          forall j | 0 <= j < k + 1 ensures gates[j].passes {
            if j > 0 {
              assert gates[j] == gates[1..][j - 1];
            }
          }
        }
        r
      else
        assert forall k :: 0 <= k < |gates| ==> gates[k].passes by {
          forall k | 0 <= k < |gates| ensures gates[k].passes {
            if k > 0 {
              assert gates[k] == gates[1..][k - 1];
            }
          }
        }
        r
  }

  // ---------------------------------------------------------------------------
  // Properties of one download.

  /** The extra lower-casing of main.go:194 changes nothing, and the name has
      no '/', so the joined path names an entry directly inside the output
      directory (or the directory itself). */
  lemma TargetNameIsUrlFilename(url: string)
    ensures TargetName(url) == UrlToFilename(url)
    ensures '/' !in TargetName(url)
  {
    FilenameIsFlatLowercase(url);
  }

  /** A name is never "..", which `filepath.Join` would resolve to the parent
      of the output directory: a stem has no '.', and an extension has no '.'
      after its first character. */
  lemma TargetNameNotParent(url: string)
    ensures TargetName(url) != ".."
  {
    TargetNameIsUrlFilename(url);
    FilenameShape(url);
    ExtSpec(Segment(url));
    StemAndExtNotParent(TargetName(url), Ext(Segment(url)));
  }

  lemma StemAndExtNotParent(name: string, ext: string)
    requires HasSuffix(name, ext) && IsStem(name[..|name| - |ext|])
    requires ext == "" ==> AllLowerAlnum(name)
    requires ext != "" ==> ext[0] == '.' && '.' !in ext[1..]
    ensures name != ".."
  {
    if |name| == 2 {
      if ext == "" {
        assert IsLowerAlnum(name[0]);
      } else if |ext| == 1 {
        assert name[0] == name[..1][0];
        assert IsSafeChar(name[..1][0]);
      } else {
        assert ext == name;
        assert name[1] == ext[1..][0];
      }
    }
  }

  /** The names "" and "." denote the output directory itself: it never
      counts as an existing file, and `os.Create` on it fails, so nothing is
      saved and the directory is unchanged. */
  lemma OutputDirNeverSaved(name: string, dir: Dir, env: Env)
    requires NamesOutputDir(name)
    ensures !FileExists(dir, name)
    ensures SaveAs(name, dir, env).outcome.Failed? && SaveAs(name, dir, env).dir == dir
  {
  }

  /** Once the file is known to be absent, the outcome is decided by the
      first gate that fails, and a download is done exactly when none fails. */
  lemma DownloadFollowsGates(name: string, dir: Dir, env: Env)
    requires !FileExists(dir, name)
    ensures var f := FirstFailure(Gates(dir, name, env));
            && (f.None? <==> SaveAs(name, dir, env).outcome.Done?)
            && (f.None? ==> SaveAs(name, dir, env).outcome == Done(|env.body|))
            && (f.Some? ==> SaveAs(name, dir, env).outcome == Failed(f.value))
  {
    var g := Gates(dir, name, env);
    if !env.requestBuilds {
      FirstFailureAt(g, 0);
    } else if !env.transportOk {
      FirstFailureAt(g, 1);
    } else if env.status != StatusOK {
      FirstFailureAt(g, 2);
    } else if !AcceptedContentType(env.contentType) {
      FirstFailureAt(g, 3);
    } else if !env.readOk {
      FirstFailureAt(g, 4);
    } else if |env.body| == 0 {
      FirstFailureAt(g, 5);
    } else if !CanCreate(dir, name, env) {
      FirstFailureAt(g, 6);
    } else if !env.write.Written? {
      FirstFailureAt(g, 7);
    } else {
      assert forall k :: 0 <= k < |g| ==> g[k].passes;
    }
  }

  /** A failing gate preceded only by passing ones is the first failure. */
  lemma FirstFailureAt(gates: seq<Gate>, k: nat)
    requires k < |gates| && !gates[k].passes
    requires forall j :: 0 <= j < k ==> gates[j].passes
    ensures FirstFailure(gates) == Some(gates[k].reason)
  {
    var f := FirstFailure(gates);
    var k' :| 0 <= k' < |gates| && !gates[k'].passes && gates[k'].reason == f.value &&
              forall j :: 0 <= j < k' ==> gates[j].passes;
    assert !(k' < k) && !(k < k');
  }

  /** A download is skipped exactly when the target already exists as a file;
      then nothing is asked of the network and the directory is unchanged. */
  lemma SkipIffFileExists(name: string, dir: Dir, env: Env, other: Env)
    ensures SaveAs(name, dir, env).outcome == Skipped <==> FileExists(dir, name)
    ensures SaveAs(name, dir, env).outcome == Skipped ==>
      SaveAs(name, dir, env).dir == dir &&
      SaveAs(name, dir, other) == SaveAs(name, dir, env)
  {
  }

  /** `true` comes back only when every gate passed; the count is the body's
      length and the file then holds exactly the body. */
  lemma DoneSavesBody(name: string, dir: Dir, env: Env)
    ensures var r := SaveAs(name, dir, env);
                    r.outcome.Done? ==>
              && !FileExists(dir, name)
              && (forall k :: 0 <= k < |Gates(dir, name, env)| ==> Gates(dir, name, env)[k].passes)
              && r.outcome.bytes == |env.body| > 0
              && Lookup(r.dir, name) == Some(File(env.body))
  {
    if SaveAs(name, dir, env).outcome.Done? {
      assert !FileExists(dir, name);
      DownloadFollowsGates(name, dir, env);
    }
  }

  /** The failures before `os.Create` (request, transport, status, content
      type, read, empty body) and a failed create leave the directory as it
      was; only a failed write after a successful create leaves a file
      behind, holding a prefix of the body. */
  lemma FailureLeavesNoFile(name: string, dir: Dir, env: Env)
    ensures var r := SaveAs(name, dir, env);
            r.outcome.Failed? && r.outcome.reason != WriteError ==> r.dir == dir
    ensures var r := SaveAs(name, dir, env);
            r.outcome == Failed(WriteError) ==>
              exists c :: Lookup(r.dir, name) == Some(File(c)) &&
                          |c| <= |env.body| && c == env.body[..|c|]
  {
    var r := SaveAs(name, dir, env);
    if r.outcome == Failed(WriteError) {
      var c := env.body[..Min(env.write.kept, |env.body|)];
      assert Lookup(r.dir, name) == Some(File(c));
    }
  }

  /** Only the target entry can change; every other entry keeps its name and
      contents, and an existing file is never overwritten. */
  lemma OnlyTargetTouched(name: string, dir: Dir, env: Env)
    ensures var r := SaveAs(name, dir, env);
            forall n :: n != name ==> Lookup(r.dir, n) == Lookup(dir, n)
    ensures var r := SaveAs(name, dir, env);
            forall n :: FileExists(dir, n) ==> Lookup(r.dir, n) == Lookup(dir, n)
    ensures SaveAs(name, dir, env).dir.Keys <= dir.Keys + {name}
  {
  }

  /** After a successful download the same URL is skipped, whatever the
      network does the second time. */
  lemma RepeatAfterDoneSkips(name: string, dir: Dir, env: Env, again: Env)
    ensures var r := SaveAs(name, dir, env);
            r.outcome.Done? ==> SaveAs(name, r.dir, again) == Step(Skipped, r.dir)
  {
    DoneSavesBody(name, dir, env);
  }

  // ---------------------------------------------------------------------------
  // The same facts for `downloadPDF(url, outputDir)`.

  /** A URL whose file exists is skipped without any change. */
  lemma DownloadSkipsExisting(url: string, dir: Dir, env: Env)
    ensures FileExists(dir, TargetName(url)) ==> DownloadPdf(url, dir, env) == Step(Skipped, dir)
  {
  }

  /** A download leaves every entry but its target alone and never changes an
      existing file. */
  lemma DownloadKeepsOthers(url: string, dir: Dir, env: Env)
    ensures forall n :: n != TargetName(url) ==> Lookup(DownloadPdf(url, dir, env).dir, n) == Lookup(dir, n)
    ensures forall n :: FileExists(dir, n) ==> Lookup(DownloadPdf(url, dir, env).dir, n) == Lookup(dir, n)
  {
    OnlyTargetTouched(TargetName(url), dir, env);
  }

  /** After `true` the target file holds the body. */
  lemma DownloadDoneSaves(url: string, dir: Dir, env: Env)
    ensures DownloadPdf(url, dir, env).outcome.Done? ==>
      Lookup(DownloadPdf(url, dir, env).dir, TargetName(url)) == Some(File(env.body))
  {
    DoneSavesBody(TargetName(url), dir, env);
  }

  /** A URL ending in ".pdf" is saved as `<stem>.pdf`: a real entry of the
      output directory, not the directory itself. */
  lemma PdfNameIsEntry(url: string)
    requires HasSuffix(url, ".pdf")
    ensures HasSuffix(TargetName(url), ".pdf") && '/' !in TargetName(url) && !NamesOutputDir(TargetName(url))
  {
    var stem := SanitizedStem(Segment(url));
    assert TargetName(url) == stem + ".pdf" && '/' !in TargetName(url) by {
      TargetNameIsUrlFilename(url);
      PdfUrlFilename(url);
    }
    PdfSuffixed(stem);
  }

  lemma PdfSuffixed(stem: string)
    ensures HasSuffix(stem + ".pdf", ".pdf") && !NamesOutputDir(stem + ".pdf")
  {
    assert (stem + ".pdf")[|stem|..] == ".pdf";
  }

  // ---------------------------------------------------------------------------
  // The corrected naming (see `Filename.NameFromSegmentIntended`).

  /** The name a URL would be saved under with the deletion step fixed. */
  function TargetNameIntended(url: string): string
  {
    ToLowerAscii(UrlToFilenameIntended(url))
  }

  /** With the corrected naming a URL ending in ".pdf" is still saved as a
      real entry of the output directory whose name ends in ".pdf". */
  lemma IntendedPdfNameIsEntry(url: string)
    requires HasSuffix(url, ".pdf")
    ensures var name := TargetNameIntended(url);
            HasSuffix(name, ".pdf") && '/' !in name && !NamesOutputDir(name)
  {
    IntendedPdfUrlFilename(url);
    LowerPdfEntry(RemoveAll(SanitizedStem(Segment(url)), "_pdf"));
  }

  lemma LowerPdfEntry(stem: string)
    requires '/' !in stem
    ensures var name := ToLowerAscii(stem + ".pdf");
            HasSuffix(name, ".pdf") && '/' !in name && !NamesOutputDir(name)
  {
    var lower := ToLowerAscii(stem);
    assert ToLowerAscii(stem + ".pdf") == lower + ".pdf" by {
      ToLowerAsciiAppend(stem, ".pdf");
      ToLowerAsciiFixesLower(".pdf");
    }
    forall i | 0 <= i < |lower| ensures lower[i] != '/' {
      assert stem[i] != '/';
    }
    PdfSuffixed(lower);
  }
}
