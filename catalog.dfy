/**
  The template catalog and the download name (app.py lines 20-21 and 150):
  `TEMPLATES` maps `os.path.splitext(f)[0]` to `f` for every listed file
  ending in `.txt`, and the PDF is offered as the selected identifier with
  spaces replaced by underscores, plus `.pdf`.
*/
module Catalog {
  import opened Text

  /** The last index of `c` in `s`, or -1 (Python's `str.rfind`). */
  function LastIndex(s: string, c: char): (k: int)
    ensures -1 <= k < |s|
    ensures k >= 0 ==> s[k] == c
    ensures forall i :: k < i < |s| ==> s[i] != c
  {
    if s == [] then -1
    else if s[|s| - 1] == c then |s| - 1
    else LastIndex(s[..|s| - 1], c)
  }

  /**
    `os.path.splitext(p)[0]` on POSIX: cut at the last `.` after the last
    `/`, unless only dots precede that `.` in the last path component, in
    which case there is no extension.
  */
  function SplitExtRoot(p: string): (r: string)
    ensures |r| <= |p| && r == p[..|r|]
    ensures r != p ==> p[|r|] == '.' && '.' !in p[|r| + 1..] && '/' !in p[|r|..]
  {
    var sep := LastIndex(p, '/');
    var dot := LastIndex(p, '.');
    if dot > sep && exists i :: sep + 1 <= i < dot && p[i] != '.' then p[..dot] else p
  }

  /** `f.endswith(".txt")` */
  predicate IsTemplateFile(f: string) {
    |f| >= 4 && f[|f| - 4..] == ".txt"
  }

  /** A directory entry name: `os.listdir` never returns one containing `/`. */
  predicate IsEntryName(f: string) {
    '/' !in f
  }

  /**
    For a `.txt` entry the identifier is the name without `.txt`, unless the
    rest of the name is only dots (`.txt`, `..txt`): then it is the whole name.
  */
  lemma TemplateIdOfTxt(f: string)
    requires IsTemplateFile(f) && IsEntryName(f)
    ensures (exists i :: 0 <= i < |f| - 4 && f[i] != '.') ==> SplitExtRoot(f) + ".txt" == f
    ensures (forall i :: 0 <= i < |f| - 4 ==> f[i] == '.') ==> SplitExtRoot(f) == f
  {
    assert f[|f| - 4] == '.' && f[|f| - 3] == 't' && f[|f| - 2] == 'x' && f[|f| - 1] == 't' by {
      assert f[|f| - 4..][0] == f[|f| - 4];
      assert f[|f| - 4..][1] == f[|f| - 3];
      assert f[|f| - 4..][2] == f[|f| - 2];
      assert f[|f| - 4..][3] == f[|f| - 1];
    }
    assert LastIndex(f, '.') == |f| - 4;
    assert LastIndex(f, '/') == -1 by {
      if LastIndex(f, '/') >= 0 {
        assert f[LastIndex(f, '/')] in f;
      }
    }
    assert f[..|f| - 4] + ".txt" == f;
  }

  /** The entry `f` is the last `.txt` entry of `listing` whose identifier is `k`. */
  predicate LastWithId(listing: seq<string>, k: string, i: int) {
    0 <= i < |listing| && IsTemplateFile(listing[i]) && SplitExtRoot(listing[i]) == k
    && forall j :: i < j < |listing| && IsTemplateFile(listing[j]) ==> SplitExtRoot(listing[j]) != k
  }

  /**
    The dictionary comprehension of lines 20-21 over a directory listing.
    Every `.txt` entry's identifier is a key, and every key maps to a `.txt`
    entry with that identifier.
  */
  function Templates(listing: seq<string>): (m: map<string, string>)
    ensures forall f :: f in listing && IsTemplateFile(f) ==> SplitExtRoot(f) in m
    ensures forall k :: k in m ==> m[k] in listing && IsTemplateFile(m[k]) && SplitExtRoot(m[k]) == k
  {
    if listing == [] then map[]
    else
      var m := Templates(listing[..|listing| - 1]);
      var f := listing[|listing| - 1];
      assert forall g :: g in listing ==> g in listing[..|listing| - 1] || g == f;
      if IsTemplateFile(f) then m[SplitExtRoot(f) := f] else m
  }

  /** When two entries share an identifier, the later one in listing order wins. */
  lemma {:induction false} TemplatesLastWins(listing: seq<string>, k: string)
    requires k in Templates(listing)
    ensures exists i :: LastWithId(listing, k, i) && Templates(listing)[k] == listing[i]
  {
    var init := listing[..|listing| - 1];
    var f := listing[|listing| - 1];
    assert listing == init + [f];
    if IsTemplateFile(f) && k == SplitExtRoot(f) {
      assert LastWithId(listing, k, |listing| - 1);
    } else {
      TemplatesLastWins(init, k);
      var i :| LastWithId(init, k, i) && Templates(init)[k] == init[i];
      LastWithIdExtend(init, f, k, i);
    }
  }

  lemma LastWithIdExtend(init: seq<string>, f: string, k: string, i: int)
    requires LastWithId(init, k, i)
    requires !(IsTemplateFile(f) && SplitExtRoot(f) == k)
    ensures LastWithId(init + [f], k, i)
  {
    var listing := init + [f];
    forall j | i < j < |listing| && IsTemplateFile(listing[j]) ensures SplitExtRoot(listing[j]) != k {
      if j < |init| {
        assert listing[j] == init[j];
      }
    }
  }

  /** The entry `.txt` and the entry `.txt.txt` get the same identifier, so only one of them can be selected. */
  lemma DotfileShadowing()
    ensures SplitExtRoot(".txt") == ".txt" && SplitExtRoot(".txt.txt") == ".txt"
  {
    TemplateIdOfTxt(".txt");
    TemplateIdOfTxt(".txt.txt");
    assert ".txt.txt"[1] != '.';
  }

  /** The `file_name` of the download button: spaces become `_`, then `.pdf`. */
  function DownloadName(waiverType: string): (r: string)
    ensures |r| == |waiverType| + 4 && r[|waiverType|..] == ".pdf"
    ensures forall i :: 0 <= i < |waiverType| ==> r[i] == if waiverType[i] == ' ' then '_' else waiverType[i]
    ensures ' ' !in r
  {
    ReplaceCharSameLength(waiverType, ' ', "_");
    ReplaceCharRemoves(waiverType, ' ', "_");
    ReplaceChar(waiverType, ' ', "_") + ".pdf"
  }

  /** A template file `Final Unconditional.txt` is downloaded as `Final_Unconditional.pdf`. */
  lemma DownloadNameOfFile(f: string)
    requires IsTemplateFile(f) && IsEntryName(f)
    requires exists i :: 0 <= i < |f| - 4 && f[i] != '.'
    ensures DownloadName(SplitExtRoot(f)) == ReplaceChar(f[..|f| - 4], ' ', "_") + ".pdf"
  {
    TemplateIdOfTxt(f);
    assert SplitExtRoot(f) == (SplitExtRoot(f) + ".txt")[..|f| - 4];
  }
}
