/**
 The upload filename check `allowed_file`, identical in app.py and pbl/app.py:
 a name is accepted when it contains a `.` and the text after the LAST `.`,
 lower-cased, is one of the allowed extensions (just `csv`).

 Lower-casing is modelled on ASCII letters only. The verdict is still exact:
 no non-ASCII character lower-cases to `c`, `s` or `v` under Python's
 `str.lower()`, so a non-ASCII extension is refused either way.
 */
module UploadNames {
  import opened Common

  /** The single entry of the allowed-extensions set. */
  const AllowedExtension: string := "csv"

  function LowerChar(c: char): (r: char)
    ensures !('A' <= r <= 'Z')
    ensures r != c ==> 'A' <= c <= 'Z'
  {
    if 'A' <= c <= 'Z' then (c as int + 32) as char else c
  }

  /** `s.lower()`, letter by letter. */
  function Lower(s: string): (t: string)
    ensures |t| == |s|
    ensures forall i :: 0 <= i < |s| ==> t[i] == LowerChar(s[i])
  {
    if |s| == 0 then [] else [LowerChar(s[0])] + Lower(s[1..])
  }

  /**
   `name.rsplit('.', 1)[1]`: the text after the last `.`, or None when there
   is no `.` (Python then has no second element and `allowed_file` has already
   answered False).
   */
  function Extension(name: string): (r: Option<string>)
    ensures r.None? <==> '.' !in name
    ensures r.Some? ==> |r.value| < |name| && name[|name| - |r.value| - 1] == '.'
    ensures r.Some? ==> r.value == name[|name| - |r.value|..] && '.' !in r.value
  {
    if |name| == 0 then None
    else if name[|name| - 1] == '.' then Some([])
    else
      match Extension(name[..|name| - 1])
      case None => None
      case Some(e) => Some(e + [name[|name| - 1]])
  }

  /** `allowed_file(name)`. */
  predicate AllowedFile(name: string): (ok: bool)
    ensures ok ==> |name| >= 4 && name[|name| - 4] == '.' && IsCsvSuffix(name[|name| - 3..])
  {
    match Extension(name)
    case None => false
    case Some(ext) => LowerIsCsv(ext); Lower(ext) == AllowedExtension
  }

  /** `csv` in any mix of letter case. */
  predicate IsCsvSuffix(e: string) {
    |e| == 3 && e[0] in "cC" && e[1] in "sS" && e[2] in "vV"
  }

  lemma LowerIsCsv(e: string)
    ensures Lower(e) == AllowedExtension <==> IsCsvSuffix(e)
  {
    if Lower(e) == AllowedExtension {
      assert LowerChar(e[0]) == 'c' && LowerChar(e[1]) == 's' && LowerChar(e[2]) == 'v';
    }
    if IsCsvSuffix(e) {
      assert Lower(e)[0] == 'c' && Lower(e)[1] == 's' && Lower(e)[2] == 'v';
    }
  }

  /**
   A name is accepted exactly when some `.` in it has no `.` after it and the
   text after that `.` spells `csv` in any letter case.
   */
  lemma AllowedFileIff(name: string)
    ensures AllowedFile(name) <==>
      exists i :: 0 <= i < |name| && name[i] == '.' && '.' !in name[i + 1..] && IsCsvSuffix(name[i + 1..])
  {
    match Extension(name)
    case None =>
      forall i | 0 <= i < |name|
        ensures name[i] != '.'
      {
        assert name[i] in name;
      }
    case Some(e) =>
      var k := |name| - |e| - 1;
      assert name[k + 1..] == e;
      LowerIsCsv(e);
      if AllowedFile(name) {
        assert name[k] == '.' && '.' !in name[k + 1..] && IsCsvSuffix(name[k + 1..]);
      }
  }

  /** Upper case is fine. */
  lemma AllowedFileUpperCase()
    ensures AllowedFile("x.CSV")
  {
    assert Extension("x.") == Some([]);
    assert Extension("x.C") == Some("C");
    assert Extension("x.CS") == Some("CS");
    assert Extension("x.CSV") == Some("CSV");
    LowerIsCsv("CSV");
  }

  /** A name that is all extension is accepted. */
  lemma AllowedFileBareExtension()
    ensures AllowedFile(".csv")
  {
    assert Extension(".") == Some([]);
    assert Extension(".c") == Some("c");
    assert Extension(".cs") == Some("cs");
    assert Extension(".csv") == Some("csv");
    LowerIsCsv("csv");
  }

  /** A bare word, an inner `.csv`, a trailing `.` and the empty name are refused. */
  lemma AllowedFileRejects()
    ensures !AllowedFile("csv")
    ensures !AllowedFile("x.csv.bak")
    ensures !AllowedFile("x.")
    ensures !AllowedFile("")
  {
    assert "csv"[0] != '.' && "csv"[1] != '.' && "csv"[2] != '.';
    assert Extension("x.csv.") == Some([]);
    assert Extension("x.csv.b") == Some("b");
    assert Extension("x.csv.ba") == Some("ba");
    assert Extension("x.csv.bak") == Some("bak");
    assert Extension("x.") == Some([]);
  }
}
