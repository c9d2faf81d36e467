/** What a file's pass reports and what it depended on: the values a cache entry holds. */
module Reports {
  import opened Wrappers
  import opened Words
  import opened RuleIds
  import opened Fixes
  import opened Calendar

  datatype Severity = Off | Warn | Error

  datatype Location = Location(file: string, line: u32, column: u32)

  datatype Violation = Violation(
    ruleId: RuleId, location: Location, message: string, remediation: string, severity: Severity, fix: Option<Fix>)

  datatype Fact = Fact(ruleId: RuleId, file: string, kind: string, data: string, sequence: u32)

  datatype Scope = NextLine | File

  datatype Suppression = Suppression(
    scope: Scope, rules: seq<RuleId>, reason: string, expires: Option<Date>, line: u32, column: u32)

  /** A blake3 digest. */
  type ContentHash = b: Bytes | |b| == 32 witness seq(32, _ => 0)

  datatype ReadOutcome = Found(hash: ContentHash) | Absent | Refused | Listed(hash: ContentHash) | Unlisted

  datatype TrackedRead = TrackedRead(path: string, outcome: ReadOutcome)

  // ----- File paths -----

  function ForwardSlashes(path: string): (r: string)
    ensures |r| == |path|
    ensures forall i | 0 <= i < |path| :: r[i] == if path[i] == '\\' then '/' else path[i]
  {
    seq(|path|, i requires 0 <= i < |path| => if path[i] == '\\' then '/' else path[i])
  }

  /** `FilePath::new`: separators become `/`, and one leading `./` is dropped. */
  function FilePath(path: string): string {
    var raw := ForwardSlashes(path);
    if "./" <= raw then raw[2..] else raw
  }

  /** A path that `FilePath::new` leaves alone. */
  predicate IsFilePath(path: string) {
    FilePath(path) == path
  }

  /** One leading `./`, with either separator, is dropped, and one only; nothing else but the separators changes. */
  lemma FilePathOf(path: string)
    ensures FilePath("./" + path) == FilePath(".\\" + path) == ForwardSlashes(path)
    ensures (forall sep | sep in {'/', '\\'} :: !(['.', sep] <= path)) ==> FilePath(path) == ForwardSlashes(path)
  {
    assert ForwardSlashes("./" + path) == "./" + ForwardSlashes(path);
    assert ForwardSlashes(".\\" + path) == "./" + ForwardSlashes(path);
    var raw := ForwardSlashes(path);
    if "./" <= raw {
      assert path[..2] == ['.', path[1]] && path[1] in {'/', '\\'};
    }
  }

  lemma FilePathFixed(path: string)
    ensures IsFilePath(path) <==> '\\' !in path && !("./" <= path)
  {
    if '\\' !in path {
      assert ForwardSlashes(path) == path;
    } else {
      var i :| 0 <= i < |path| && path[i] == '\\';
      assert ForwardSlashes(path)[i] == '/';
    }
  }
}
