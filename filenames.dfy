/**
 * The admission check and the filename handling of the upload handler:
 * the case-insensitive `.pdf` suffix test, the substitution that replaces every
 * character outside `[a-zA-Z0-9._-]` by `_`, and the POSIX path joins that
 * place the temporary copy under `<cwd>/temp` and the saved vector index
 * under `vector_stores`.
 */
module Filenames {

  // ---------------------------------------------------------------------------
  // Case-insensitive suffix test: `filename.lower().endswith('.pdf')`
  // ---------------------------------------------------------------------------

  /** Lower-case mapping of one character (ASCII letters; every other character is kept). */
  function LowerChar(c: char): char {
    if 'A' <= c <= 'Z' then (c as int + 32) as char else c
  }

  /** `s.lower()`, scanning the name from left to right. */
  function Lower(s: string): (r: string)
    ensures |r| == |s|
  {
    if s == [] then [] else [LowerChar(s[0])] + Lower(s[1..])
  }

  /** Each character of the lower-cased name is the lower case of the character at that position. */
  lemma {:induction false} LowerAt(s: string, i: nat)
    requires i < |s|
    ensures Lower(s)[i] == LowerChar(s[i])
  {
    if i > 0 {
      LowerAt(s[1..], i - 1);
    }
  }

  /** `s.endswith(suffix)`. */
  predicate EndsWith(s: string, suffix: string) {
    |suffix| <= |s| && forall i :: 0 <= i < |suffix| ==> s[|s| - |suffix| + i] == suffix[i]
  }

  const PdfSuffix: string := ".pdf"

  /** The admission test of the upload handler. */
  predicate HasPdfSuffix(filename: string)
    ensures HasPdfSuffix(filename) ==> |filename| >= |PdfSuffix|
  {
    EndsWith(Lower(filename), PdfSuffix)
  }

  /**
   * Independent description of the accepted names: the last four characters
   * are a dot followed by `p`, `d`, `f` in either case.
   */
  lemma PdfSuffixCharacterised(filename: string)
    ensures HasPdfSuffix(filename) <==>
      (var n := |filename|;
       && n >= 4
       && filename[n - 4] == '.'
       && (filename[n - 3] == 'p' || filename[n - 3] == 'P')
       && (filename[n - 2] == 'd' || filename[n - 2] == 'D')
       && (filename[n - 1] == 'f' || filename[n - 1] == 'F'))
  {
    var n := |filename|;
    if n >= 4 {
      var low := Lower(filename);
      LowerAt(filename, n - 4);
      LowerAt(filename, n - 3);
      LowerAt(filename, n - 2);
      LowerAt(filename, n - 1);
      assert HasPdfSuffix(filename) <==>
        low[n - 4] == '.' && low[n - 3] == 'p' && low[n - 2] == 'd' && low[n - 1] == 'f'
      by {
        if HasPdfSuffix(filename) {
          assert low[n - 4 + 0] == PdfSuffix[0];
          assert low[n - 4 + 1] == PdfSuffix[1];
          assert low[n - 4 + 2] == PdfSuffix[2];
          assert low[n - 4 + 3] == PdfSuffix[3];
        }
      }
    }
  }

  // ---------------------------------------------------------------------------
  // Sanitisation: `re.sub(r'[^a-zA-Z0-9._-]', '_', filename)`
  // ---------------------------------------------------------------------------

  /** Membership in the character class `[a-zA-Z0-9._-]`. */
  predicate IsAllowed(c: char) {
    || 'a' <= c <= 'z'
    || 'A' <= c <= 'Z'
    || '0' <= c <= '9'
    || c == '.' || c == '_' || c == '-'
  }

  const Replacement: char := '_'

  /** The substitution, scanning the name from left to right. */
  function Sanitize(s: string): (r: string)
    ensures |r| == |s|
  {
    if s == [] then []
    else [if IsAllowed(s[0]) then s[0] else Replacement] + Sanitize(s[1..])
  }

  /** Every allowed character stays at its position; every other one becomes `_`. */
  lemma {:induction false} SanitizeAt(s: string, i: nat)
    requires i < |s|
    ensures Sanitize(s)[i] == if IsAllowed(s[i]) then s[i] else Replacement
  {
    if i > 0 {
      SanitizeAt(s[1..], i - 1);
    }
  }

  /** The output only contains allowed characters; in particular no `/`. */
  lemma {:induction false} SanitizeOnlyAllowed(s: string)
    ensures forall i :: 0 <= i < |Sanitize(s)| ==> IsAllowed(Sanitize(s)[i])
    ensures '/' !in Sanitize(s)
  {
    forall i | 0 <= i < |s| ensures IsAllowed(Sanitize(s)[i]) {
      SanitizeAt(s, i);
    }
  }

  /** A name made only of allowed characters is left unchanged, and only such a name. */
  lemma {:induction false} SanitizeFixedPoints(s: string)
    ensures Sanitize(s) == s <==> forall i :: 0 <= i < |s| ==> IsAllowed(s[i])
  {
    if forall i :: 0 <= i < |s| ==> IsAllowed(s[i]) {
      forall i | 0 <= i < |s| ensures Sanitize(s)[i] == s[i] {
        SanitizeAt(s, i);
      }
    } else {
      var i :| 0 <= i < |s| && !IsAllowed(s[i]);
      SanitizeAt(s, i);
    }
  }

  /** Sanitising twice gives the same name as sanitising once. */
  lemma {:induction false} SanitizeIdempotent(s: string)
    ensures Sanitize(Sanitize(s)) == Sanitize(s)
  {
    SanitizeOnlyAllowed(s);
    SanitizeFixedPoints(Sanitize(s));
  }

  /** The admission test only looks at the last four characters. */
  lemma PdfSuffixOfTail(a: string, b: string)
    requires |a| >= 4 && |b| >= 4
    requires a[|a| - 4..] == b[|b| - 4..]
    ensures HasPdfSuffix(a) == HasPdfSuffix(b)
  {
    assert a[|a| - 4] == b[|b| - 4] && a[|a| - 3] == b[|b| - 3];
    assert a[|a| - 2] == b[|b| - 2] && a[|a| - 1] == b[|b| - 1];
    PdfSuffixCharacterised(a);
    PdfSuffixCharacterised(b);
  }

  /** An admitted name still ends in an admitted suffix after sanitisation. */
  lemma SanitizeKeepsPdfSuffix(s: string)
    requires HasPdfSuffix(s)
    ensures HasPdfSuffix(Sanitize(s))
  {
    var n, t := |s|, Sanitize(s);
    PdfSuffixCharacterised(s);
    forall i | n - 4 <= i < n ensures t[i] == s[i] {
      SanitizeAt(s, i);
    }
    assert t[n - 4..] == s[n - 4..];
    PdfSuffixOfTail(s, t);
  }

  // ---------------------------------------------------------------------------
  // Paths
  // ---------------------------------------------------------------------------

  const Sep: char := '/'

  /** `os.path.join(a, b)` for two components on POSIX. */
  function JoinPath(a: string, b: string): string {
    if |b| > 0 && b[0] == Sep then b
    else if a == [] || a[|a| - 1] == Sep then a + b
    else a + [Sep] + b
  }

  /**
   * The joined path always ends with `b`; it starts with `a` unless `b` is
   * absolute; at most one separator is inserted between them.
   */
  lemma JoinPathShape(a: string, b: string)
    ensures var r := JoinPath(a, b);
      && |b| <= |r| && r[|r| - |b|..] == b
      && ((|b| > 0 && b[0] == Sep) || (|a| <= |r| && r[..|a|] == a))
      && |r| <= |a| + 1 + |b|
  {
  }

  /** `os.path.join(os.getcwd(), "temp")`. */
  function TempDir(cwd: string): string {
    JoinPath(cwd, "temp")
  }

  /** `f"{uuid.uuid4().hex}_{safe_filename}"`. */
  function TempFileName(hex: string, safeName: string): string {
    hex + "_" + safeName
  }

  /** The temporary copy of an upload. */
  function TempPath(cwd: string, hex: string, filename: string): string {
    JoinPath(TempDir(cwd), TempFileName(hex, Sanitize(filename)))
  }

  /** `os.path.join("vector_stores", public_id)`: where the vector index of a blob is saved. */
  function IndexPath(publicId: string): string {
    JoinPath("vector_stores", publicId)
  }

  /** Distinct blobs get distinct index paths. */
  lemma IndexPathInjective(p: string, q: string)
    requires IndexPath(p) == IndexPath(q)
    ensures p == q
  {
    var dir := "vector_stores";
    if !(|p| > 0 && p[0] == Sep) && !(|q| > 0 && q[0] == Sep) {
      assert p == IndexPath(p)[|dir| + 1..];
    }
  }

  /** The shape of `uuid.uuid4().hex`: 32 lower-case hexadecimal digits. */
  predicate IsUuidHex(h: string) {
    |h| == 32 && forall i :: 0 <= i < |h| ==> h[i] in "0123456789abcdef"
  }

  /** `path` names one entry directly inside `dir`, and that entry is neither `.` nor `..`. */
  predicate IsDirectChild(path: string, dir: string) {
    && |path| > |dir| + 1
    && path[..|dir|] == dir
    && path[|dir|] == Sep
    && (forall i :: |dir| < i < |path| ==> path[i] != Sep)
    && path[|dir| + 1..] != "."
    && path[|dir| + 1..] != ".."
  }

  /** The temporary directory never ends in a separator. */
  lemma TempDirShape(cwd: string)
    ensures |TempDir(cwd)| > 0 && TempDir(cwd)[|TempDir(cwd)| - 1] == 'p'
  {
  }

  /** Joining onto a directory that does not end in a separator a name that does not start with one. */
  lemma JoinPlain(dir: string, name: string)
    requires |dir| > 0 && dir[|dir| - 1] != Sep
    requires |name| > 0 && name[0] != Sep
    ensures JoinPath(dir, name) == dir + [Sep] + name
  {
  }

  /** The temporary name holds no separator and is as long as the uploaded name plus 33. */
  lemma TempFileNameShape(hex: string, filename: string)
    requires IsUuidHex(hex)
    ensures var name := TempFileName(hex, Sanitize(filename));
      && |name| == 33 + |filename|
      && name[0] != Sep
      && forall i :: 0 <= i < |name| ==> name[i] != Sep
  {
    var safe := Sanitize(filename);
    var name := TempFileName(hex, safe);
    SanitizeOnlyAllowed(filename);
    forall i | 0 <= i < |name| ensures name[i] != Sep {
      if i < 32 {
        assert name[i] == hex[i];
      } else if i > 32 {
        assert name[i] == safe[i - 33];
      }
    }
  }

  /**
   * The temporary copy is one path component directly under the temporary
   * directory: the uuid hex, `_`, then the sanitised name, and its length is
   * that of the uploaded name plus 33.
   */
  lemma TempPathIsDirectChild(cwd: string, hex: string, filename: string)
    requires IsUuidHex(hex)
    ensures TempPath(cwd, hex, filename) == TempDir(cwd) + [Sep] + TempFileName(hex, Sanitize(filename))
    ensures IsDirectChild(TempPath(cwd, hex, filename), TempDir(cwd))
    ensures |TempPath(cwd, hex, filename)| == |TempDir(cwd)| + 34 + |filename|
  {
    var dir := TempDir(cwd);
    var name := TempFileName(hex, Sanitize(filename));
    TempDirShape(cwd);
    TempFileNameShape(hex, filename);
    JoinPlain(dir, name);
    var p := TempPath(cwd, hex, filename);
    assert p == dir + [Sep] + name;
    assert p[..|dir|] == dir;
    assert p[|dir| + 1..] == name;
    forall i | |dir| < i < |p| ensures p[i] != Sep {
      assert p[i] == name[i - |dir| - 1];
    }
  }
}
