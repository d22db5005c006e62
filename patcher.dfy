/**
 * The page rewrite of `update_system_files` (automator.py:206-224): every
 * `.html` page loses its legacy `<script>` blocks that read
 * `localStorage.getItem`, and a page that does not yet load
 * `core_controller.js` gets the two script tags inserted before each
 * `</body>` and is written back.
 */
module Patcher {
  import opened Wrappers
  import opened Strings

  const OpenTag := "<script>"
  const CloseTag := "</script>"
  const StorageRead := "localStorage.getItem"
  const BodyEnd := "</body>"
  const Controller := "core_controller.js"

  // ---------------------------------------------------------------------------
  // Removing legacy script blocks
  // ---------------------------------------------------------------------------

  /**
   * Where a match of `<script>[\s\S]*?localStorage\.getItem[\s\S]*?</script>`
   * starting at index 0 of `s` ends: both gaps are lazy, so the match runs
   * from `<script>` through the first `localStorage.getItem` after it to the
   * first `</script>` after that.
   */
  function LegacyBlockEnd(s: string): (r: Option<nat>)
    ensures r.Some? ==> OccursAt(s, OpenTag, 0) && |OpenTag| < r.value <= |s|
    ensures r.Some? ==> OccursAt(s, CloseTag, r.value - |CloseTag|)
  {
    if !OccursAt(s, OpenTag, 0) then None
    else match FindFrom(s, StorageRead, |OpenTag|)
      case None => None
      case Some(g) =>
        match FindFrom(s, CloseTag, g + |StorageRead|)
        case None => None
        case Some(e) => Some(e + |CloseTag|)
  }

  /**
   * A block at the start holds a `localStorage.getItem` after its tag and
   * before its `</script>`; with no block, no such pair follows a leading tag.
   */
  lemma LegacyBlockEndMatches(s: string)
    ensures LegacyBlockEnd(s).Some? ==> exists g | |OpenTag| <= g && g + |StorageRead| <= LegacyBlockEnd(s).value - |CloseTag| ::
      OccursAt(s, StorageRead, g)
    ensures LegacyBlockEnd(s).None? && OccursAt(s, OpenTag, 0) ==>
      forall g, e | |OpenTag| <= g && g + |StorageRead| <= e :: !(OccursAt(s, StorageRead, g) && OccursAt(s, CloseTag, e))
  {
  }

  /**
   * Both gaps are lazy: the block's `localStorage.getItem` is the first one
   * after the tag, and its `</script>` is the first one after that read.
   */
  lemma LegacyBlockEndIsLazy(s: string)
    ensures LegacyBlockEnd(s).Some? ==> exists g | |OpenTag| <= g ::
      && OccursAt(s, StorageRead, g)
      && (forall j | |OpenTag| <= j < g :: !OccursAt(s, StorageRead, j))
      && g + |StorageRead| <= LegacyBlockEnd(s).value - |CloseTag|
      && (forall e | g + |StorageRead| <= e < LegacyBlockEnd(s).value - |CloseTag| :: !OccursAt(s, CloseTag, e))
  {
    if LegacyBlockEnd(s).Some? {
      var g := FindFrom(s, StorageRead, |OpenTag|).value;
      assert OccursAt(s, StorageRead, g);
    }
  }

  /**
   * `re.sub` of that pattern with '': matches are taken left to right, the
   * scan resuming after each removed block, and text between them is kept.
   */
  function RemoveLegacyScripts(s: string): (r: string)
    ensures |r| <= |s|
    decreases |s|
  {
    if s == [] then []
    else match LegacyBlockEnd(s)
      case Some(e) => RemoveLegacyScripts(s[e..])
      case None => [s[0]] + RemoveLegacyScripts(s[1..])
  }

  // ---------------------------------------------------------------------------
  // Inserting the new scripts
  // ---------------------------------------------------------------------------

  /** Pages under `Modulos` load the scripts from the parent folder. */
  function Prefix(path: string): (r: string)
    ensures r == "../" || r == "./"
    ensures r == "../" <==> Contains(path, "Modulos")
  {
    if Contains(path, "Modulos") then "../" else "./"
  }

  /** What each `</body>` becomes. */
  function Injection(prefix: string): (r: string)
    ensures |r| > |BodyEnd| && r[|r| - |BodyEnd|..] == BodyEnd
  {
    "<script src=\"" + prefix + "lidea_db.js\"></script><script src=\"" + prefix + Controller + "\"></script></body>"
  }

  /** The new content of one page, or None when it is not written. */
  function PatchPage(path: string, content: string): (r: Option<string>)
    ensures r.Some? && Contains(RemoveLegacyScripts(content), BodyEnd) ==> Contains(r.value, Controller)
    ensures r.Some? && !Contains(RemoveLegacyScripts(content), StorageRead) ==> !Contains(r.value, StorageRead)
  {
    var cleaned := RemoveLegacyScripts(content);
    if Contains(cleaned, Controller) then None
    else
      PatchedPageFacts(cleaned, Prefix(path));
      Some(Replace(cleaned, BodyEnd, Injection(Prefix(path))))
  }

  /** What inserting the scripts guarantees of a written page. */
  lemma PatchedPageFacts(cleaned: string, prefix: string)
    requires prefix == "../" || prefix == "./"
    ensures Contains(cleaned, BodyEnd) ==> Contains(Replace(cleaned, BodyEnd, Injection(prefix)), Controller)
    ensures !Contains(cleaned, StorageRead) ==> !Contains(Replace(cleaned, BodyEnd, Injection(prefix)), StorageRead)
  {
    if Contains(cleaned, BodyEnd) {
      WrittenPageLoadsController(cleaned, prefix);
    }
    if !Contains(cleaned, StorageRead) {
      InsertingAddsNoStorageRead(cleaned, prefix);
    }
  }

  /** The page as it stands on disk after one pass. */
  function AfterPass(path: string, content: string): string {
    match PatchPage(path, content)
    case None => content
    case Some(c) => c
  }

  /** `file.endswith(".html")`. */
  predicate IsPageName(path: string) {
    |path| >= 5 && path[|path| - 5..] == ".html"
  }

  /** The loop leaves the page alone: not an `.html` file, or nothing to patch. */
  predicate Skipped(page: (string, string)) {
    !IsPageName(page.0) || PatchPage(page.0, page.1).None?
  }

  /** The pages one pass writes, in walk order, with their new contents. */
  function Writes(pages: seq<(string, string)>): (r: seq<(string, string)>)
    ensures |r| <= |pages|
    decreases |pages|
  {
    if pages == [] then []
    else
      var last := pages[|pages| - 1];
      var before := Writes(pages[..|pages| - 1]);
      if Skipped(last) then before
      else before + [(last.0, PatchPage(last.0, last.1).value)]
  }

  /** Nothing is written exactly when every page is skipped. */
  lemma NothingWrittenIff(pages: seq<(string, string)>)
    ensures Writes(pages) == [] <==> forall j | 0 <= j < |pages| :: Skipped(pages[j])
  {
    if forall j | 0 <= j < |pages| :: Skipped(pages[j]) {
      AllSkippedWritesNothing(pages);
    }
    if Writes(pages) == [] {
      forall j | 0 <= j < |pages| ensures Skipped(pages[j]) {
        NothingWrittenSkips(pages, j);
      }
    }
  }

  lemma {:induction false} AllSkippedWritesNothing(pages: seq<(string, string)>)
    requires forall j | 0 <= j < |pages| :: Skipped(pages[j])
    ensures Writes(pages) == []
    decreases |pages|
  {
    if pages != [] {
      var n := |pages| - 1;
      var before := pages[..n];
      assert forall j | 0 <= j < n :: before[j] == pages[j];
      AllSkippedWritesNothing(before);
      WritesSkips(pages);
    }
  }

  lemma {:induction false} NothingWrittenSkips(pages: seq<(string, string)>, j: nat)
    requires Writes(pages) == [] && j < |pages|
    ensures Skipped(pages[j])
    decreases |pages|
  {
    var n := |pages| - 1;
    var before := pages[..n];
    WritesCount(pages);
    if j < n {
      NothingWrittenSkips(before, j);
      assert before[j] == pages[j];
    }
  }

  /** The last page of the walk adds one write unless it is skipped. */
  lemma WritesCount(pages: seq<(string, string)>)
    requires pages != []
    ensures |Writes(pages)| == |Writes(pages[..|pages| - 1])| + if Skipped(pages[|pages| - 1]) then 0 else 1
  {
    var last := pages[|pages| - 1];
    if Skipped(last) {
      WritesSkips(pages);
    } else {
      WritesGrows(pages, PatchPage(last.0, last.1).value);
    }
  }

  /** Page j of the walk is an `.html` page whose patched content is `w`. */
  predicate WrittenFrom(pages: seq<(string, string)>, w: (string, string), j: int) {
    && 0 <= j < |pages| && IsPageName(pages[j].0) && w.0 == pages[j].0
    && PatchPage(pages[j].0, pages[j].1) == Some(w.1)
  }

  /** Every page written is an `.html` page of the walk, with its patched content. */
  lemma WritesComeFromPages(pages: seq<(string, string)>)
    ensures forall w | w in Writes(pages) :: exists j :: WrittenFrom(pages, w, j)
  {
    forall w | w in Writes(pages)
      ensures exists j :: WrittenFrom(pages, w, j)
    {
      var k :| 0 <= k < |Writes(pages)| && Writes(pages)[k] == w;
      var j := WriteSource(pages, k);
    }
  }

  /** The k-th write comes from the page `WriteSource` names. */
  lemma {:induction false} WriteSource(pages: seq<(string, string)>, k: nat) returns (j: nat)
    requires k < |Writes(pages)|
    ensures WrittenFrom(pages, Writes(pages)[k], j)
    decreases |pages|
  {
    var n := |pages| - 1;
    var before := pages[..n];
    var out := PatchPage(pages[n].0, pages[n].1);
    if IsPageName(pages[n].0) && out.Some? {
      WritesGrows(pages, out.value);
    } else {
      WritesSkips(pages);
    }
    if k < |Writes(before)| {
      j := WriteSource(before, k);
      WrittenFromExtends(before, pages, Writes(before)[k], j);
    } else {
      j := n;
    }
  }

  /** One more page of the walk adds its write, if it has one. */
  lemma WritesStep(pages: seq<(string, string)>, i: nat, out: Option<string>)
    requires i < |pages|
    requires out.Some? <==> !Skipped(pages[i])
    requires out.Some? ==> out == PatchPage(pages[i].0, pages[i].1)
    ensures Writes(pages[..i + 1]) == Writes(pages[..i]) + (if out.Some? then [(pages[i].0, out.value)] else [])
  {
    var seen := pages[..i + 1];
    assert seen[..i] == pages[..i] && seen[i] == pages[i];
    if out.Some? {
      WritesGrows(seen, out.value);
    } else {
      WritesSkips(seen);
    }
  }

  lemma WritesGrows(pages: seq<(string, string)>, c: string)
    requires pages != [] && IsPageName(pages[|pages| - 1].0)
    requires PatchPage(pages[|pages| - 1].0, pages[|pages| - 1].1) == Some(c)
    ensures Writes(pages) == Writes(pages[..|pages| - 1]) + [(pages[|pages| - 1].0, c)]
  {
  }

  lemma WritesSkips(pages: seq<(string, string)>)
    requires pages != [] && Skipped(pages[|pages| - 1])
    ensures Writes(pages) == Writes(pages[..|pages| - 1])
  {
  }

  lemma WrittenFromExtends(before: seq<(string, string)>, pages: seq<(string, string)>, w: (string, string), j: nat)
    requires before <= pages && WrittenFrom(before, w, j)
    ensures WrittenFrom(pages, w, j)
  {
    assert pages[j] == before[j];
  }

  /**
   * The body of the page loop of `update_system_files` (automator.py:208-222)
   * for one file: the text written back, if any.
   */
  method PatchFile(path: string, content: string) returns (out: Option<string>)
    ensures out.Some? <==> !Skipped((path, content))
    ensures out.Some? ==> out == PatchPage(path, content)
  {
    out := None;
    if |path| >= 5 && path[|path| - 5..] == ".html" {
      var text := RemoveLegacyScripts(content);
      var prefix := Prefix(path);
      if !Contains(text, Controller) {
        text := Replace(text, BodyEnd, Injection(prefix));
        out := Some(text);
      }
    }
  }

  /**
   * The page loop of `update_system_files` (automator.py:206-224) over the
   * pages `os.walk` lists, each with its path and its text: the pages it
   * writes back, and the `patched` counter.
   */
  method UpdateSystemFiles(pages: seq<(string, string)>) returns (written: seq<(string, string)>, patched: nat)
    ensures written == Writes(pages)
    ensures patched == |written|
  {
    written, patched := [], 0;
    for i := 0 to |pages|
      invariant written == Writes(pages[..i])
      invariant patched == |written|
    {
      var (path, content) := pages[i];
      var out := PatchFile(path, content);
      WritesStep(pages, i, out);
      if out.Some? {
        written := written + [(path, out.value)];
        patched := patched + 1;
      }
    }
    assert pages[..|pages|] == pages;
  }

  // ---------------------------------------------------------------------------
  // What the rewrite guarantees
  // ---------------------------------------------------------------------------

  /** The inserted text has no capital S, so it never reads `localStorage`. */
  lemma InjectionHasNoStorageRead(prefix: string)
    requires prefix == "../" || prefix == "./"
    ensures Lacks(Injection(prefix), 'S')
    ensures !Contains(Injection(prefix), StorageRead)
  {
    var a := "<script src=\"";
    var b := "lidea_db.js\"></script><script src=\"";
    var tail := "\"></script></body>";
    assert Lacks(a, 'S') && Lacks(prefix, 'S') && Lacks(b, 'S') && Lacks(Controller, 'S') && Lacks(tail, 'S');
    LacksConcat(a, prefix, 'S');
    LacksConcat(a + prefix, b, 'S');
    LacksConcat(a + prefix + b, prefix, 'S');
    LacksConcat(a + prefix + b + prefix, Controller, 'S');
    LacksConcat(a + prefix + b + prefix + Controller, tail, 'S');
    assert Injection(prefix) == a + prefix + b + prefix + Controller + tail;
    MissingCharExcludes(Injection(prefix), StorageRead, 5);
  }

  /**
   * The inserted text loads the controller, keeps the `</body>` it replaces,
   * and starts with `<` and ends with `>`.
   */
  lemma InjectionFacts(prefix: string)
    requires prefix == "../" || prefix == "./"
    ensures var inj := Injection(prefix);
      && Contains(inj, Controller) && Contains(inj, BodyEnd)
      && inj[0] == '<' && inj[|inj| - 1] == '>'
  {
    var head := "<script src=\"" + prefix + "lidea_db.js\"></script><script src=\"" + prefix;
    var tail := "\"></script></body>";
    assert Injection(prefix) == head + Controller + tail;
    assert OccursAt(Controller, Controller, 0);
    OccursInConcat(head, Controller, Controller, 0);
    OccursInPrefix(head + Controller, tail, Controller, |head|);
    assert tail[11..18] == BodyEnd;
    assert OccursAt(tail, BodyEnd, 11);
    OccursInConcat(head + Controller, tail, BodyEnd, 11);
  }

  /** Text that never reads `localStorage` keeps every script block. */
  lemma {:induction false} RemoveKeepsTextWithoutStorageRead(s: string)
    requires !Contains(s, StorageRead)
    ensures RemoveLegacyScripts(s) == s
    decreases |s|
  {
    if s != [] {
      assert LegacyBlockEnd(s).None?;
      SuffixKeepsAbsence(s, 1, StorageRead);
      RemoveKeepsTextWithoutStorageRead(s[1..]);
    }
  }

  /** Inserting the scripts into text free of `localStorage.getItem` keeps it free. */
  lemma InsertingAddsNoStorageRead(cleaned: string, prefix: string)
    requires prefix == "../" || prefix == "./"
    requires !Contains(cleaned, StorageRead)
    ensures !Contains(Replace(cleaned, BodyEnd, Injection(prefix)), StorageRead)
  {
    var inj := Injection(prefix);
    InjectionFacts(prefix);
    InjectionHasNoStorageRead(prefix);
    assert forall k | 0 <= k < |StorageRead| :: StorageRead[k] != '<' && StorageRead[k] != '>';
    ReplaceAddsNoOccurrence(cleaned, BodyEnd, inj, StorageRead);
  }

  /**
   * Patching a page twice leaves it as patching it once, provided the first
   * removal leaves no `localStorage.getItem` behind; and when the page has a
   * `</body>` (or already loaded the controller), the second pass does not
   * write at all.
   */
  lemma PatchIsIdempotent(path: string, content: string)
    requires !Contains(RemoveLegacyScripts(content), StorageRead)
    ensures AfterPass(path, AfterPass(path, content)) == AfterPass(path, content)
    ensures var cleaned := RemoveLegacyScripts(content);
      Contains(cleaned, BodyEnd) || Contains(cleaned, Controller) ==> PatchPage(path, AfterPass(path, content)).None?
  {
    var cleaned := RemoveLegacyScripts(content);
    if !Contains(cleaned, Controller) {
      var once := Replace(cleaned, BodyEnd, Injection(Prefix(path)));
      assert AfterPass(path, content) == once;
      InsertingAddsNoStorageRead(cleaned, Prefix(path));
      RemoveKeepsTextWithoutStorageRead(once);
      if Contains(cleaned, BodyEnd) {
        WrittenPageLoadsController(cleaned, Prefix(path));
      } else {
        ReplaceWithoutOccurrence(cleaned, BodyEnd, Injection(Prefix(path)));
        ReplaceWithoutOccurrence(once, BodyEnd, Injection(Prefix(path)));
      }
    }
  }

  /** A page with a `</body>` loads the controller once patched. */
  lemma WrittenPageLoadsController(cleaned: string, prefix: string)
    requires prefix == "../" || prefix == "./"
    requires Contains(cleaned, BodyEnd)
    ensures Contains(Replace(cleaned, BodyEnd, Injection(prefix)), Controller)
  {
    InjectionFacts(prefix);
    ReplaceKeepsReplacement(cleaned, BodyEnd, Injection(prefix));
    ContainsTransitive(Replace(cleaned, BodyEnd, Injection(prefix)), Injection(prefix), Controller);
  }

  /** Every page after one pass, written or not, in walk order. */
  function AfterRun(pages: seq<(string, string)>): (r: seq<(string, string)>)
    ensures |r| == |pages|
    ensures forall j | 0 <= j < |pages| :: r[j].0 == pages[j].0
  {
    seq(|pages|, j requires 0 <= j < |pages| =>
      (pages[j].0, if IsPageName(pages[j].0) then AfterPass(pages[j].0, pages[j].1) else pages[j].1))
  }

  /**
   * A second run over the pages the first one left writes nothing, when
   * every page has a `</body>` or already loads the controller and keeps no
   * `localStorage.getItem` once its legacy blocks are removed.
   */
  lemma SecondRunWritesNothing(pages: seq<(string, string)>)
    requires forall j | 0 <= j < |pages| && IsPageName(pages[j].0) ::
      var cleaned := RemoveLegacyScripts(pages[j].1);
      && !Contains(cleaned, StorageRead)
      && (Contains(cleaned, BodyEnd) || Contains(cleaned, Controller))
    ensures Writes(AfterRun(pages)) == []
  {
    var after := AfterRun(pages);
    NothingWrittenIff(after);
    forall j | 0 <= j < |after|
      ensures Skipped(after[j])
    {
      if IsPageName(after[j].0) {
        PatchIsIdempotent(pages[j].0, pages[j].1);
      }
    }
  }

  // ---------------------------------------------------------------------------
  // A page the rewrite does not leave alone
  // ---------------------------------------------------------------------------

  /** Every `<` in `s` opens a closing tag, so no `<script>` starts in `s`. */
  predicate OnlyClosingTags(s: string) {
    forall i | 0 <= i < |s| && s[i] == '<' :: i + 1 < |s| && s[i + 1] == '/'
  }

  lemma OnlyClosingTagsConcat(a: string, b: string)
    requires OnlyClosingTags(a) && OnlyClosingTags(b)
    ensures OnlyClosingTags(a + b)
  {
  }

  lemma OnlyClosingTagsExcludesOpenTag(s: string)
    requires OnlyClosingTags(s)
    ensures !Contains(s, OpenTag)
  {
    if i :| 0 <= i <= |s| && OccursAt(s, OpenTag, i) {
      CharAt(s, OpenTag, i, 0);
      CharAt(s, OpenTag, i, 1);
      assert false;
    }
  }

  /** Text without a `<script>` is kept whole. */
  lemma {:induction false} RemoveKeepsTextWithoutOpenTag(s: string)
    requires !Contains(s, OpenTag)
    ensures RemoveLegacyScripts(s) == s
    decreases |s|
  {
    if s != [] {
      assert !OccursAt(s, OpenTag, 0);
      SuffixKeepsAbsence(s, 1, OpenTag);
      RemoveKeepsTextWithoutOpenTag(s[1..]);
    }
  }

  /** A character that does not start a `<script>` is copied. */
  lemma RemoveCopiesChar(s: string)
    requires s != [] && !OccursAt(s, OpenTag, 0)
    ensures RemoveLegacyScripts(s) == [s[0]] + RemoveLegacyScripts(s[1..])
  {
  }

  /** A leading stretch in which no `<script>` starts is copied whole. */
  lemma {:induction false} RemoveCopiesPrefix(s: string, n: nat)
    requires n <= |s|
    requires forall i | 0 <= i < n :: !OccursAt(s, OpenTag, i)
    ensures RemoveLegacyScripts(s) == s[..n] + RemoveLegacyScripts(s[n..])
    decreases n
  {
    if n > 0 {
      RemoveCopiesChar(s);
      AbsenceShifts(s, OpenTag, n);
      RemoveCopiesPrefix(s[1..], n - 1);
      PeelFirst(s, n);
      Regroup(RemoveLegacyScripts(s), [s[0]], s[1..][..n - 1], RemoveLegacyScripts(s[1..]), RemoveLegacyScripts(s[n..]));
    }
  }

  /**
   * A `<script>` at the start whose first `localStorage.getItem` after the
   * tag is at `p`, and whose first `</script>` after that read is at `e`, is
   * removed as one block, and the scan resumes after it.
   */
  lemma RemoveLeadingBlock(s: string, p: nat, e: nat)
    requires OccursAt(s, OpenTag, 0) && |OpenTag| <= p
    requires OccursAt(s, StorageRead, p)
    requires forall j | |OpenTag| <= j < p :: !OccursAt(s, StorageRead, j)
    requires p + |StorageRead| <= e && OccursAt(s, CloseTag, e)
    requires forall j | p + |StorageRead| <= j < e :: !OccursAt(s, CloseTag, j)
    ensures RemoveLegacyScripts(s) == RemoveLegacyScripts(s[e + |CloseTag|..])
  {
    FindFromIs(s, StorageRead, |OpenTag|, p);
    FindFromIs(s, CloseTag, p + |StorageRead|, e);
    assert LegacyBlockEnd(s) == Some(e + |CloseTag|);
  }

  /** Where no legacy block starts, the first character is copied. */
  lemma RemoveCopiesWhereNoBlock(s: string)
    requires s != [] && LegacyBlockEnd(s).None?
    ensures RemoveLegacyScripts(s) == [s[0]] + RemoveLegacyScripts(s[1..])
  {
  }

  /**
   * A page that opens with `<script>`, then `x`, then the first
   * `localStorage.getItem` after the tag and a `</script>`: that block goes.
   */
  lemma RemoveBlockAfter(x: string, rest: string)
    requires forall j | |OpenTag| <= j < |OpenTag| + |x| ::
      !OccursAt(OpenTag + (x + (StorageRead + (CloseTag + rest))), StorageRead, j)
    ensures RemoveLegacyScripts(OpenTag + (x + (StorageRead + (CloseTag + rest)))) == RemoveLegacyScripts(rest)
  {
    var d := OpenTag + (x + (StorageRead + (CloseTag + rest)));
    BlockShape(x, rest);
    RemoveLeadingBlock(d, |OpenTag| + |x|, |OpenTag| + |x| + |StorageRead|);
  }

  /** Where the pieces of such a page sit. */
  lemma BlockShape(x: string, rest: string)
    ensures var d := OpenTag + (x + (StorageRead + (CloseTag + rest)));
      var p := |OpenTag| + |x|;
      && OccursAt(d, OpenTag, 0) && OccursAt(d, StorageRead, p)
      && OccursAt(d, CloseTag, p + |StorageRead|) && d[p + |StorageRead| + |CloseTag|..] == rest
  {
    var d := OpenTag + (x + (StorageRead + (CloseTag + rest)));
    var p := |OpenTag| + |x|;
    var t := CloseTag + rest;
    ConcatSlices(OpenTag, x, StorageRead, t);
    SuffixSlices(d, p + |StorageRead|, t, |CloseTag|);
    assert t[..|CloseTag|] == CloseTag && t[|CloseTag|..] == rest;
  }

  /**
   * No `localStorage.getItem` starts inside `x` when `x` has no 'S' and ends
   * with `</body>`.
   */
  lemma NoStorageReadInside(x: string, tail: string)
    requires Lacks(x, 'S') && |x| >= |BodyEnd| && x[|x| - |BodyEnd|..] == BodyEnd
    ensures forall j | |OpenTag| <= j < |OpenTag| + |x| :: !OccursAt(OpenTag + (x + tail), StorageRead, j)
  {
    var w := OpenTag + (x + tail);
    var p := |OpenTag| + |x|;
    assert w[|OpenTag|..][..|x|] == x;
    forall j | |OpenTag| <= j < p
      ensures !OccursAt(w, StorageRead, j)
    {
      if j + |StorageRead| <= |w| {
        if j + 5 < p {
          assert w[j + 5] == x[j + 5 - |OpenTag|] != 'S';
          assert w[j..j + |StorageRead|][5] != StorageRead[5];
        } else {
          assert w[j] == x[j - |OpenTag|] == x[|x| - |BodyEnd|..][j - |OpenTag| - (|x| - |BodyEnd|)] != 'l';
          assert w[j..j + |StorageRead|][0] != StorageRead[0];
        }
      }
    }
  }

  /**
   * The page that shows why `PatchIsIdempotent` needs its precondition: the
   * inner block is removed, and the text around it joins into a new
   * `<script>` block that reads `localStorage.getItem`.
   */
  function SplicedPage(): string {
    "<scr" + (OpenTag + (StorageRead + (CloseTag + ("ipt>" + SplicedBody()))))
  }

  /** What follows the split tag: a `</body>` and a second read. */
  function SplicedBody(): string {
    BodyEnd + (StorageRead + CloseTag)
  }

  /** The text after the inner block holds no `<script>`. */
  lemma SplicedTailKept()
    ensures RemoveLegacyScripts("ipt>" + SplicedBody()) == "ipt>" + SplicedBody()
  {
    assert OnlyClosingTags("ipt>") && OnlyClosingTags(BodyEnd) && OnlyClosingTags(StorageRead) && OnlyClosingTags(CloseTag);
    OnlyClosingTagsConcat(StorageRead, CloseTag);
    OnlyClosingTagsConcat(BodyEnd, StorageRead + CloseTag);
    OnlyClosingTagsConcat("ipt>", SplicedBody());
    OnlyClosingTagsExcludesOpenTag("ipt>" + SplicedBody());
    RemoveKeepsTextWithoutOpenTag("ipt>" + SplicedBody());
  }

  /** The halves of the split tag join into `<script>`. */
  lemma TagHalvesJoin(x: string)
    ensures "<scr" + ("ipt>" + x) == OpenTag + x
  {
    assert "<scr" + "ipt>" == OpenTag;
    assert "<scr" + ("ipt>" + x) == ("<scr" + "ipt>") + x;
  }

  /** The four characters before the inner block are copied. */
  lemma SplicedHeadCopied(inner: string)
    ensures RemoveLegacyScripts("<scr" + (OpenTag + inner)) == "<scr" + RemoveLegacyScripts(OpenTag + inner)
  {
    var c := "<scr" + (OpenTag + inner);
    forall i | 0 <= i < 4
      ensures !OccursAt(c, OpenTag, i)
    {
      if i == 0 {
        assert c[0..8][4] != OpenTag[4];
      } else if i + 8 <= |c| {
        assert c[i..i + 8][0] != OpenTag[0];
      }
    }
    RemoveCopiesPrefix(c, 4);
    assert c[..4] == "<scr";
    assert c[4..] == OpenTag + inner;
  }

  /** A block with nothing between the tag and the read goes. */
  lemma SplicedInnerRemoved(rest: string)
    ensures RemoveLegacyScripts(OpenTag + (StorageRead + (CloseTag + rest))) == RemoveLegacyScripts(rest)
  {
    var y := StorageRead + (CloseTag + rest);
    assert [] + y == y;
    RemoveBlockAfter([], rest);
  }

  lemma SplicedPageCleaned()
    ensures RemoveLegacyScripts(SplicedPage()) == OpenTag + SplicedBody()
  {
    var rest := "ipt>" + SplicedBody();
    SplicedHeadCopied(StorageRead + (CloseTag + rest));
    SplicedInnerRemoved(rest);
    SplicedTailKept();
    TagHalvesJoin(SplicedBody());
  }

  /** The page as a file at the top of the site. */
  const SplicedPath := "index.html"

  /** After the first pass: the scripts sit inside the spliced block. */
  function SplicedOnce(): string {
    OpenTag + (Injection("./") + (StorageRead + CloseTag))
  }

  lemma InjectionEndsWithBodyEnd(prefix: string)
    ensures var inj := Injection(prefix);
      |inj| >= |BodyEnd| && inj[|inj| - |BodyEnd|..] == BodyEnd
  {
    var head := "<script src=\"" + prefix + "lidea_db.js\"></script><script src=\"" + prefix + Controller + "\"></script>";
    assert Injection(prefix) == head + BodyEnd;
  }

  /** No `</body>` starts inside a leading `<script>`. */
  lemma NoBodyEndInOpenTag(t: string)
    ensures forall i | 0 <= i < |OpenTag| :: !OccursAt(OpenTag + t, BodyEnd, i)
  {
    var s := OpenTag + t;
    forall i | 0 <= i < |OpenTag|
      ensures !OccursAt(s, BodyEnd, i)
    {
      if i == 0 {
        assert s[0..7][1] != BodyEnd[1];
      } else if i + 7 <= |s| {
        assert s[i..i + 7][0] != BodyEnd[0];
      }
    }
  }

  /** Inserting into the cleaned page puts the scripts inside the spliced block. */
  lemma SplicedInsertion()
    ensures Replace(OpenTag + SplicedBody(), BodyEnd, Injection("./")) == SplicedOnce()
  {
    var tail := StorageRead + CloseTag;
    NoBodyEndInOpenTag(BodyEnd + tail);
    assert Lacks(StorageRead, 'b') && Lacks(CloseTag, 'b');
    LacksConcat(StorageRead, CloseTag, 'b');
    MissingCharExcludes(tail, BodyEnd, 2);
    ReplaceOnlyAfter(OpenTag, BodyEnd, tail, Injection("./"));
  }

  /** The cleaned page does not load the controller: it has no underscore. */
  lemma SplicedCleanedLacksController()
    ensures !Contains(OpenTag + SplicedBody(), Controller)
  {
    assert Lacks(OpenTag, '_') && Lacks(BodyEnd, '_') && Lacks(StorageRead, '_') && Lacks(CloseTag, '_');
    LacksConcat(StorageRead, CloseTag, '_');
    LacksConcat(BodyEnd, StorageRead + CloseTag, '_');
    LacksConcat(OpenTag, SplicedBody(), '_');
    MissingCharExcludes(OpenTag + SplicedBody(), Controller, 4);
  }

  lemma SplicedPathPrefix()
    ensures Prefix(SplicedPath) == "./"
  {
    MissingCharExcludes(SplicedPath, "Modulos", 0);
  }

  /** The first pass writes the page: nothing in it loads the controller yet. */
  lemma SplicedFirstPass()
    ensures PatchPage(SplicedPath, SplicedPage()) == Some(SplicedOnce())
  {
    SplicedPageCleaned();
    SplicedCleanedLacksController();
    SplicedPathPrefix();
    SplicedInsertion();
  }

  /** After the first removal the page still has its `</body>` and a `localStorage.getItem`. */
  lemma SplicedCleanedContains()
    ensures Contains(OpenTag + SplicedBody(), BodyEnd)
    ensures Contains(OpenTag + SplicedBody(), StorageRead)
  {
    assert OccursAt(BodyEnd, BodyEnd, 0) && OccursAt(StorageRead, StorageRead, 0);
    OccursInPrefix(BodyEnd, StorageRead + CloseTag, BodyEnd, 0);
    OccursInConcat(OpenTag, SplicedBody(), BodyEnd, 0);
    OccursInPrefix(StorageRead, CloseTag, StorageRead, 0);
    OccursInConcat(BodyEnd, StorageRead + CloseTag, StorageRead, 0);
    OccursInConcat(OpenTag, SplicedBody(), StorageRead, |BodyEnd|);
  }

  /** The second pass finds one block spanning the whole page and writes it empty. */
  lemma SplicedSecondPass()
    ensures PatchPage(SplicedPath, SplicedOnce()) == Some([])
  {
    var inj := Injection("./");
    InjectionHasNoStorageRead("./");
    InjectionEndsWithBodyEnd("./");
    NoStorageReadInside(inj, StorageRead + (CloseTag + []));
    assert CloseTag + [] == CloseTag;
    RemoveBlockAfter(inj, []);
    assert RemoveLegacyScripts(SplicedOnce()) == [];
    assert !OccursAt([], Controller, 0);
  }

  /**
   * Without the precondition of `PatchIsIdempotent` a second pass can write
   * again, even though the page has a `</body>`: this page keeps a
   * `localStorage.getItem` after the first removal, and the second pass
   * erases it.
   */
  lemma SplicedPageErasedOnSecondPass()
    ensures Contains(RemoveLegacyScripts(SplicedPage()), BodyEnd)
    ensures Contains(RemoveLegacyScripts(SplicedPage()), StorageRead)
    ensures PatchPage(SplicedPath, SplicedPage()).Some?
    ensures PatchPage(SplicedPath, AfterPass(SplicedPath, SplicedPage())) == Some([])
  {
    SplicedPageCleaned();
    SplicedCleanedContains();
    SplicedFirstPass();
    SplicedSecondPass();
  }
}
