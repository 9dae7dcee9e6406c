/** update-readme-links.js: the Markdown link of each calendar file and the
    splice that puts the links between two markers of the README. Finding
    the files and reading and writing the README are I/O: the file paths and
    the README text are inputs, and the new text is the result. Paths are
    '/'-separated strings. */
module UpdateReadmeLinks {
  import opened Wrappers
  import opened JsString

  /** Where the raw calendar files are served from. */
  const GithubBaseUrl: string := "https://raw.githubusercontent.com/MrRosendahl/sopkalender/refs/heads/main/calendars"

  /** The markers: an HTML comment opened by '<' and a shared tag, closed
      by "start -->" or "end -->". */
  const MarkerTag: string := "!-- auto-generated-calendar-links:"
  const StartMarker: string := "<" + MarkerTag + "start -->"
  const EndMarker: string := "<" + MarkerTag + "end -->"

  /** The text before the file name of every link: "- ", the spiral calendar
      emoji with its variation selector, " [". */
  const LinkPrefix: string := "- \U{1F5D3}\U{FE0F} ["

  // ---------------------------------------------------------------------
  // formatMarkdownLink

  /** path.basename for a '/'-separated path: the longest suffix without a
      separator. */
  function Basename(p: string): (r: string)
    ensures |r| <= |p| && p[|p| - |r|..] == r
    ensures '/' !in r
    ensures |r| < |p| ==> p[|p| - |r| - 1] == '/'
  {
    if p == [] || p[|p| - 1] == '/' then []
    else Basename(p[..|p| - 1]) + [p[|p| - 1]]
  }

  /** The file lies below the directory. */
  predicate IsUnder(dir: string, filePath: string) {
    |dir| < |filePath| && filePath[..|dir| + 1] == dir + "/"
  }

  /** path.relative(dir, filePath) for a file below dir. */
  function RelativePath(dir: string, filePath: string): (r: string)
    requires IsUnder(dir, filePath)
    ensures filePath == dir + "/" + r
  {
    filePath[|dir| + 1..]
  }

  /** replace(/\\/g, '/'): every backslash becomes a slash. */
  function SlashBackslashes(s: string): (r: string)
    ensures |r| == |s| && '\\' !in r
    ensures forall k :: 0 <= k < |s| ==> r[k] == (if s[k] == '\\' then '/' else s[k])
  {
    seq(|s|, k requires 0 <= k < |s| => if s[k] == '\\' then '/' else s[k])
  }

  /** formatMarkdownLink(filePath), for a file below calendarsDir. */
  function FormatMarkdownLink(calendarsDir: string, filePath: string): string
    requires IsUnder(calendarsDir, filePath)
  {
    var relPath := SlashBackslashes(RelativePath(calendarsDir, filePath));
    LinkPrefix + Basename(filePath) + "](" + GithubBaseUrl + "/" + relPath + ")"
  }

  /** The basename of a file below a directory is the end of its relative
      path, after a separator when the file is in a sub-folder. */
  lemma BasenameEndsRelativePath(dir: string, filePath: string)
    requires IsUnder(dir, filePath)
    ensures var b := Basename(filePath);
      var rel := RelativePath(dir, filePath);
      && |b| <= |rel| && rel[|rel| - |b|..] == b
      && (|b| < |rel| ==> rel[|rel| - |b| - 1] == '/')
  {
    SeparatorAfterDir(dir, filePath);
    BasenameAfter(filePath, |dir|);
    DropKeepsSuffix(filePath, |dir| + 1, |Basename(filePath)|);
  }

  /** Dropping a prefix of s keeps its last m elements, and the one before
      them if there is one. */
  lemma DropKeepsSuffix<T>(s: seq<T>, k: nat, m: nat)
    requires k + m <= |s|
    ensures var r := s[k..];
      && r[|r| - m..] == s[|s| - m..]
      && (k + m < |s| ==> r[|r| - m - 1] == s[|s| - m - 1])
  {
  }

  lemma SeparatorAfterDir(dir: string, filePath: string)
    requires IsUnder(dir, filePath)
    ensures filePath[|dir|] == '/'
  {
    assert filePath[|dir|] == filePath[..|dir| + 1][|dir|];
  }

  /** The basename starts after every separator of the path. */
  lemma BasenameAfter(p: string, i: nat)
    requires i < |p| && p[i] == '/'
    ensures |p| - |Basename(p)| > i
  {
    var b := Basename(p);
    forall k | |p| - |b| <= k < |p| ensures p[k] != '/' {
      assert p[k] == b[k - (|p| - |b|)];
    }
  }

  /** The link shows the file's name and points below the raw calendars
      folder, at the relative path with no backslash left in it; for a path
      without backslashes that is the relative path itself, which ends with
      the file's name. */
  lemma LinkNamesTheFile(calendarsDir: string, filePath: string)
    requires IsUnder(calendarsDir, filePath)
    ensures var b := Basename(filePath);
      var link := FormatMarkdownLink(calendarsDir, filePath);
      exists relUrl ::
        && link == LinkPrefix + b + "](" + GithubBaseUrl + "/" + relUrl + ")"
        && '\\' !in relUrl
        && ('\\' !in filePath ==> relUrl == RelativePath(calendarsDir, filePath))
  {
    var rel := RelativePath(calendarsDir, filePath);
    var relUrl := SlashBackslashes(rel);
    assert FormatMarkdownLink(calendarsDir, filePath)
        == LinkPrefix + Basename(filePath) + "](" + GithubBaseUrl + "/" + relUrl + ")";
    if '\\' !in filePath {
      NoBackslashKept(calendarsDir, filePath);
    }
  }

  /** Without backslashes the relative path is used unchanged. */
  lemma NoBackslashKept(calendarsDir: string, filePath: string)
    requires IsUnder(calendarsDir, filePath) && '\\' !in filePath
    ensures SlashBackslashes(RelativePath(calendarsDir, filePath)) == RelativePath(calendarsDir, filePath)
  {
    var rel := RelativePath(calendarsDir, filePath);
    forall k | 0 <= k < |rel| ensures rel[k] != '\\' {
      assert rel[k] == filePath[|calendarsDir| + 1 + k];
    }
  }

  // ---------------------------------------------------------------------
  // updateReadme

  /** The text put between the markers. */
  function NewContent(links: seq<string>): string {
    "\n\n" + Join(links, "\n") + "\n\n"
  }

  /** updateReadme(links) on the README text: Err when a marker is missing
      (the script then exits without writing), otherwise the text up to the
      end of the first start marker, the links, and the text from the first
      end marker on. The two slices are taken as found, even when the end
      marker comes first. */
  function UpdateReadme(readme: string, links: seq<string>): Result<string, string> {
    match (IndexOf(readme, StartMarker), IndexOf(readme, EndMarker))
    case (Some(s), Some(e)) => Ok(readme[..s + |StartMarker|] + NewContent(links) + readme[e..])
    case _ => Err("Missing markers in README.md")
  }

  /** pat first occurs in s at k. */
  predicate FirstAt(s: string, pat: string, k: nat) {
    OccursAt(s, pat, k) && forall j :: 0 <= j < k ==> !OccursAt(s, pat, j)
  }

  lemma IndexOfFirst(s: string, pat: string, k: nat)
    requires FirstAt(s, pat, k)
    ensures IndexOf(s, pat) == Some(k)
  {
    var r := IndexOfFrom(s, pat, 0);
    assert OccursAt(s, pat, k);
    assert r.Some?;
    assert !(r.value < k);
  }

  /** The README is rewritten exactly when both markers occur in it. */
  lemma UpdateReadmeNeedsBothMarkers(readme: string, links: seq<string>)
    ensures UpdateReadme(readme, links).Ok? <==>
      (exists s :: OccursAt(readme, StartMarker, s)) && (exists e :: OccursAt(readme, EndMarker, e))
  {
    var rs := IndexOf(readme, StartMarker);
    var re := IndexOf(readme, EndMarker);
    if rs.Some? && re.Some? {
      assert OccursAt(readme, StartMarker, rs.value);
      assert OccursAt(readme, EndMarker, re.value);
    }
  }

  /** With s and e the first occurrences of the markers, the new README keeps
      the text up to and including the start marker and the text from the
      end marker on, and holds the links, one per line and set off by blank
      lines, in between. */
  lemma UpdateReadmeSplices(readme: string, links: seq<string>, s: nat, e: nat)
    requires FirstAt(readme, StartMarker, s) && FirstAt(readme, EndMarker, e)
    ensures UpdateReadme(readme, links).Ok?
    ensures var u := UpdateReadme(readme, links).value;
      var p := s + |StartMarker|;
      && |u| == p + |NewContent(links)| + |readme| - e
      && u[..p] == readme[..p]
      && u[p..p + |NewContent(links)|] == "\n\n" + Join(links, "\n") + "\n\n"
      && u[p + |NewContent(links)|..] == readme[e..]
  {
    IndexOfFirst(readme, StartMarker, s);
    IndexOfFirst(readme, EndMarker, e);
    var p := s + |StartMarker|;
    var u := readme[..p] + NewContent(links) + readme[e..];
    assert u[..p] == readme[..p];
    assert u[p..p + |NewContent(links)|] == NewContent(links);
    assert u[p + |NewContent(links)|..] == readme[e..];
  }

  /** Links joined by line feeds hold no '<' when no link does. */
  lemma {:induction false} JoinWithoutLt(links: seq<string>)
    requires forall i :: 0 <= i < |links| ==> '<' !in links[i]
    ensures '<' !in Join(links, "\n")
  {
    if |links| > 1 {
      JoinWithoutLt(links[1..]);
    }
  }

  /** Only the first character of the start marker is a '<', and the end
      marker is shorter than the start marker and differs from its head. */
  lemma StartMarkerLt()
    ensures StartMarker[0] == '<' && EndMarker[0] == '<'
    ensures forall k :: 0 < k < |StartMarker| ==> StartMarker[k] != '<'
    ensures |EndMarker| < |StartMarker| && StartMarker[..|EndMarker|] != EndMarker
  {
    var tail := MarkerTag + "start -->";
    assert '<' !in tail;
    forall k | 0 < k < |StartMarker| ensures StartMarker[k] != '<' {
      assert StartMarker[k] == tail[k - 1];
    }
    var n := |MarkerTag| + 1;
    assert StartMarker[n] == 's' && EndMarker[n] == 'e';
    assert StartMarker[..|EndMarker|][n] != EndMarker[n];
  }

  /** An end marker that comes after the start marker does not overlap it. */
  lemma EndAfterStart(readme: string, s: nat, e: nat)
    requires OccursAt(readme, StartMarker, s) && OccursAt(readme, EndMarker, e) && s < e
    ensures s + |StartMarker| <= e
  {
    StartMarkerLt();
    assert readme[e] == '<';
    forall k | s < k < s + |StartMarker| ensures readme[k] != '<' {
      assert readme[k] == StartMarker[k - s];
    }
  }

  /** Running the update twice with the same links gives what running it
      once gives, when the start marker comes before the end marker and no
      link holds a '<' (so none holds a marker). */
  lemma UpdateReadmeIdempotent(readme: string, links: seq<string>, s: nat, e: nat)
    requires FirstAt(readme, StartMarker, s) && FirstAt(readme, EndMarker, e) && s < e
    requires forall i :: 0 <= i < |links| ==> '<' !in links[i]
    ensures UpdateReadme(readme, links).Ok?
    ensures UpdateReadme(UpdateReadme(readme, links).value, links) == UpdateReadme(readme, links)
  {
    var p := s + |StartMarker|;
    var c := NewContent(links);
    EndAfterStart(readme, s, e);
    UpdateReadmeIs(readme, links, s, e);
    var u := readme[..p] + c + readme[e..];
    JoinWithoutLt(links);
    StartMarkerStaysFirst(readme, c, s, e);
    EndMarkerFirstAfterLinks(readme, links, s, e);
    UpdateReadmeIs(u, links, s, p + |c|);
    SpliceAgain(readme[..p], c, readme[e..]);
  }

  /** With s and e the first occurrences of the markers, the update splices
      the new content between them. */
  lemma UpdateReadmeIs(readme: string, links: seq<string>, s: nat, e: nat)
    requires FirstAt(readme, StartMarker, s) && FirstAt(readme, EndMarker, e)
    ensures UpdateReadme(readme, links) == Ok(readme[..s + |StartMarker|] + NewContent(links) + readme[e..])
  {
    IndexOfFirst(readme, StartMarker, s);
    IndexOfFirst(readme, EndMarker, e);
  }

  /** Cutting a + c + b around c and putting c back gives it unchanged. */
  lemma SpliceAgain<T>(a: seq<T>, c: seq<T>, b: seq<T>)
    ensures var u := a + c + b; u[..|a|] + c + u[|a| + |c|..] == u
  {
    var u := a + c + b;
    assert u[..|a|] == a;
    assert u[|a| + |c|..] == b;
  }

  /** After the splice the end marker first occurs right after the links. */
  lemma EndMarkerFirstAfterLinks(readme: string, links: seq<string>, s: nat, e: nat)
    requires FirstAt(readme, StartMarker, s) && FirstAt(readme, EndMarker, e) && s + |StartMarker| <= e
    requires '<' !in NewContent(links)
    ensures var p := s + |StartMarker|;
      FirstAt(readme[..p] + NewContent(links) + readme[e..], EndMarker, p + |NewContent(links)|)
  {
    var p := s + |StartMarker|;
    var c := NewContent(links);
    var u := readme[..p] + c + readme[e..];
    var q := p + |c|;
    assert OccursAt(u, EndMarker, q) by {
      assert u[q..] == readme[e..];
      assert u[q..q + |EndMarker|] == readme[e..e + |EndMarker|];
    }
    forall j | 0 <= j < q ensures !OccursAt(u, EndMarker, j) {
      EndMarkerNotBefore(readme, links, s, e, j);
    }
  }

  /** After the splice the start marker still first occurs at s. */
  lemma StartMarkerStaysFirst(readme: string, c: string, s: nat, e: nat)
    requires FirstAt(readme, StartMarker, s) && s + |StartMarker| <= e <= |readme|
    ensures FirstAt(readme[..s + |StartMarker|] + c + readme[e..], StartMarker, s)
  {
    var p := s + |StartMarker|;
    var u := readme[..p] + c + readme[e..];
    assert u[s..p] == readme[s..p];
    forall j | 0 <= j < s ensures !OccursAt(u, StartMarker, j) {
      assert !OccursAt(readme, StartMarker, j);
      assert u[j..j + |StartMarker|] == readme[j..j + |StartMarker|];
    }
  }

  /** The step of UpdateReadmeIdempotent for one position before the links'
      end: the end marker cannot start there. */
  lemma EndMarkerNotBefore(readme: string, links: seq<string>, s: nat, e: nat, j: nat)
    requires FirstAt(readme, StartMarker, s) && FirstAt(readme, EndMarker, e) && s + |StartMarker| <= e
    requires '<' !in NewContent(links)
    requires j < s + |StartMarker| + |NewContent(links)|
    ensures !OccursAt(readme[..s + |StartMarker|] + NewContent(links) + readme[e..], EndMarker, j)
  {
    var p := s + |StartMarker|;
    var c := NewContent(links);
    var u := readme[..p] + c + readme[e..];
    StartMarkerLt();
    if j >= p {
      assert u[j] == c[j - p];
    } else if j < s {
      assert !OccursAt(readme, EndMarker, j);
      assert u[j..j + |EndMarker|] == readme[j..j + |EndMarker|];
    } else if j == s {
      assert u[s..s + |EndMarker|] == StartMarker[..|EndMarker|];
    } else {
      assert u[j] == StartMarker[j - s];
    }
  }
}
