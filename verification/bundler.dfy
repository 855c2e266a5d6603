/** The build script that produces `bin/KetteringJS.js`: the core file is
    copied in full, then every other `.js` entry of the `js/` listing
    contributes a blank-line separator followed by its lines after the
    licence header. File contents are sequences of lines, each line
    carrying its own line terminator as Python's `fileinput` yields it; the
    output is the sequence of strings written to the output file. */
module Bundler {
  import JsText

  /** `headerLen`: the licence header every module file starts with. */
  const HeaderLen: nat := 16

  /** `coreFile`, also the literal the listing filter compares against. */
  const CoreFile: string := "KetteringJS-Core.js"

  /** The extension a listed entry needs to be bundled. */
  const Extension: string := ".js"

  /** The separator written before every bundled module. */
  const Separator: string := "\n"

  /** One entry of `os.listdir("js")` with the lines of that file. */
  datatype Entry = Entry(name: string, lines: seq<string>)

  /** The filter: a `.js` entry other than the core file. */
  predicate IsCandidate(e: Entry) {
    JsText.EndsWith(e.name, Extension) && e.name != CoreFile
  }

  /** The lines of a module after its header (reference definition). */
  function Body(lines: seq<string>): seq<string> {
    if |lines| <= HeaderLen then [] else lines[HeaderLen..]
  }

  /** What one listing entry adds to the bundle. */
  function Contribution(e: Entry): seq<string> {
    if IsCandidate(e) then [Separator] + Body(e.lines) else []
  }

  /** The contributions of a listing, in listing order. */
  function Contributions(listing: seq<Entry>): seq<string> {
    if |listing| == 0 then [] else Contribution(listing[0]) + Contributions(listing[1..])
  }

  /** The bundle as a whole (reference definition). */
  function Bundle(core: seq<string>, listing: seq<Entry>): seq<string> {
    core + Contributions(listing)
  }

  /** The lines the counting loop keeps: the line numbered `index + 1`
      and the following ones, each written only once the counter has
      passed `HeaderLen`. */
  function CopyCounted(lines: seq<string>, index: nat): (out: seq<string>)
    ensures |out| <= |lines|
  {
    if |lines| == 0 then []
    else (if index + 1 > HeaderLen then [lines[0]] else []) + CopyCounted(lines[1..], index + 1)
  }

  /** How many more lines the counter still discards once it stands at
      `index`. */
  function StillSkipped(index: nat): nat {
    if index >= HeaderLen then 0 else HeaderLen - index
  }

  /** The counter-based copy drops exactly the lines it has not yet
      counted past the header. */
  lemma {:induction false} CopyCountedDropsHeader(lines: seq<string>, index: nat)
    ensures CopyCounted(lines, index)
            == (if |lines| <= StillSkipped(index) then [] else lines[StillSkipped(index)..])
    decreases |lines|
  {
    if |lines| > 0 {
      CopyCountedDropsHeader(lines[1..], index + 1);
      if index >= HeaderLen {
        assert CopyCounted(lines[1..], index + 1) == lines[1..];
        assert lines == [lines[0]] + lines[1..];
      } else if |lines| > StillSkipped(index) {
        assert lines[1..][StillSkipped(index + 1)..] == lines[StillSkipped(index)..];
      }
    }
  }

  /** Starting from a zero counter the copy is the module body. */
  lemma CopyCountedIsBody(lines: seq<string>)
    ensures CopyCounted(lines, 0) == Body(lines)
  {
    CopyCountedDropsHeader(lines, 0);
  }

  /** Lines 41-50 of the script: a counter numbers the lines of one module
      and a line is written only once the counter exceeds `HeaderLen`. */
  method CopyAfterHeader(lines: seq<string>) returns (written: seq<string>)
    ensures written == Body(lines)
  {
    written := [];
    var index := 0;
    var i := 0;
    while i < |lines|
      invariant 0 <= i <= |lines| && index == i
      invariant written + CopyCounted(lines[i..], index) == CopyCounted(lines, 0)
    {
      assert lines[i..] == [lines[i]] + lines[i + 1..];
      index := index + 1;
      if index > HeaderLen {
        written := written + [lines[i]];
      }
      i := i + 1;
    }
    CopyCountedIsBody(lines);
  }

  /** The script, step by step: writes the core file, then walks the
      listing with the filter, the separator and the line counter. */
  method BuildBundle(core: seq<string>, listing: seq<Entry>) returns (out: seq<string>)
    ensures out == Bundle(core, listing)
    ensures out[..|core|] == core
  {
    out := [];
    var c := 0;
    while c < |core|
      invariant 0 <= c <= |core|
      invariant out == core[..c]
    {
      out := out + [core[c]];
      c := c + 1;
    }
    assert core[..|core|] == core;
    var k := 0;
    while k < |listing|
      invariant 0 <= k <= |listing|
      invariant out == core + Contributions(listing[..k])
    {
      var file := listing[k];
      ContributionsSnoc(listing, k);
      if JsText.EndsWith(file.name, ".js") && file.name != "KetteringJS-Core.js" {
        var body := CopyAfterHeader(file.lines);
        Regroup3(core, Contributions(listing[..k]), ["\n"] + body);
        out := out + (["\n"] + body);
      }
      k := k + 1;
    }
    assert listing[..|listing|] == listing;
  }

  // -----------------------------------------------------------------------
  // Properties of the bundle

  lemma {:induction false} ContributionsAppend(a: seq<Entry>, b: seq<Entry>)
    ensures Contributions(a + b) == Contributions(a) + Contributions(b)
    decreases |a|
  {
    if |a| == 0 {
      assert a + b == b;
    } else {
      assert (a + b)[0] == a[0] && (a + b)[1..] == a[1..] + b;
      ContributionsAppend(a[1..], b);
    }
  }

  /** One more entry appends its contribution. */
  lemma ContributionsSnoc(listing: seq<Entry>, k: nat)
    requires k < |listing|
    ensures Contributions(listing[..k + 1]) == Contributions(listing[..k]) + Contribution(listing[k])
  {
    assert listing[..k + 1] == listing[..k] + [listing[k]];
    ContributionsAppend(listing[..k], [listing[k]]);
    assert Contributions([listing[k]]) == Contribution(listing[k]) + Contributions([]);
  }

  lemma Regroup3(a: seq<string>, b: seq<string>, c: seq<string>)
    ensures a + b + c == a + (b + c)
  {
  }

  /** The bundle starts with the core file, unchanged and in order. */
  lemma CoreFirst(core: seq<string>, listing: seq<Entry>)
    ensures |Bundle(core, listing)| >= |core|
    ensures Bundle(core, listing)[..|core|] == core
  {
  }

  /** The contributions of `before + [e] + after`, split at `e`. */
  lemma ContributionsAround(before: seq<Entry>, e: Entry, after: seq<Entry>)
    ensures Contributions(before + [e] + after)
            == Contributions(before) + Contribution(e) + Contributions(after)
  {
    ContributionsAppend(before + [e], after);
    ContributionsAppend(before, [e]);
    assert Contributions([e]) == Contribution(e) + Contributions([]);
  }

  /** A listed candidate shows up as the separator followed by its body,
      between the contributions of the entries before it and after it. */
  lemma ListingOrder(core: seq<string>, before: seq<Entry>, e: Entry, after: seq<Entry>)
    requires IsCandidate(e)
    ensures Bundle(core, before + [e] + after)
            == core + Contributions(before) + Contribution(e) + Contributions(after)
    ensures Contribution(e) == [Separator] + Body(e.lines)
  {
    ContributionsAround(before, e, after);
    Regroup(core, Contributions(before), Contribution(e), Contributions(after));
  }

  lemma Regroup(a: seq<string>, b: seq<string>, c: seq<string>, d: seq<string>)
    ensures a + (b + c + d) == a + b + c + d
  {
  }

  /** An entry that is not a candidate (wrong extension, or the core file
      itself) adds nothing wherever it is listed. */
  lemma NonCandidateIgnored(core: seq<string>, before: seq<Entry>, e: Entry, after: seq<Entry>)
    requires !IsCandidate(e)
    ensures Bundle(core, before + [e] + after) == Bundle(core, before + after)
  {
    ContributionsAround(before, e, after);
    ContributionsAppend(before, after);
  }

  /** The core file's own listing entry never adds a second copy, whatever
      its contents. */
  lemma CoreEntryIgnored(lines: seq<string>)
    ensures Contribution(Entry(CoreFile, lines)) == []
  {
  }

  /** Entries whose name does not end in `.js` contribute nothing. */
  lemma OtherExtensionIgnored(e: Entry)
    requires !JsText.EndsWith(e.name, ".js")
    ensures Contribution(e) == []
  {
  }

  /** A candidate of at most `HeaderLen` lines contributes the separator
      alone; a longer one its lines numbered 17 and up. */
  lemma ShortCandidate(e: Entry)
    requires IsCandidate(e)
    ensures |e.lines| <= HeaderLen ==> Contribution(e) == ["\n"]
    ensures |e.lines| > HeaderLen ==> Contribution(e) == ["\n"] + e.lines[16..]
  {
  }

  /** The number of strings a listing adds: one separator plus the body of
      every candidate. */
  function ContributedSize(listing: seq<Entry>): nat {
    if |listing| == 0 then 0
    else (if IsCandidate(listing[0]) then 1 + |Body(listing[0].lines)| else 0)
         + ContributedSize(listing[1..])
  }

  lemma {:induction false} ContributionsSize(listing: seq<Entry>)
    ensures |Contributions(listing)| == ContributedSize(listing)
  {
    if |listing| > 0 {
      ContributionsSize(listing[1..]);
    }
  }

  /** The bundle's length is the core's plus, for every candidate, one
      separator and its body. */
  lemma BundleSize(core: seq<string>, listing: seq<Entry>)
    ensures |Bundle(core, listing)| == |core| + ContributedSize(listing)
  {
    ContributionsSize(listing);
  }

  /** Keeps the candidates of a listing, in order. */
  function Candidates(listing: seq<Entry>): (r: seq<Entry>)
    ensures forall k :: 0 <= k < |r| ==> IsCandidate(r[k])
    ensures |r| <= |listing|
  {
    if |listing| == 0 then []
    else (if IsCandidate(listing[0]) then [listing[0]] else []) + Candidates(listing[1..])
  }

  /** The concatenation of `"\n" + body` over the candidates alone. */
  function SeparatedBodies(files: seq<Entry>): seq<string> {
    if |files| == 0 then [] else [Separator] + Body(files[0].lines) + SeparatedBodies(files[1..])
  }

  /** The contributions are `"\n" + body` for each candidate, in listing
      order, and nothing else. */
  lemma {:induction false} ContributionsAreCandidates(listing: seq<Entry>)
    ensures Contributions(listing) == SeparatedBodies(Candidates(listing))
  {
    if |listing| > 0 {
      ContributionsAreCandidates(listing[1..]);
      var rest := Candidates(listing[1..]);
      if IsCandidate(listing[0]) {
        assert Candidates(listing) == [listing[0]] + rest;
        assert ([listing[0]] + rest)[0] == listing[0];
        assert ([listing[0]] + rest)[1..] == rest;
      } else {
        assert Candidates(listing) == rest;
      }
    }
  }

  /** The bundle is the core followed by `"\n" + body` for each candidate. */
  lemma BundleIsCoreThenCandidates(core: seq<string>, listing: seq<Entry>)
    ensures Bundle(core, listing) == core + SeparatedBodies(Candidates(listing))
  {
    ContributionsAreCandidates(listing);
  }

  /** The text written to the output file. */
  function Text(writes: seq<string>): string {
    if |writes| == 0 then "" else writes[0] + Text(writes[1..])
  }

  lemma {:induction false} TextAppend(a: seq<string>, b: seq<string>)
    ensures Text(a + b) == Text(a) + Text(b)
    decreases |a|
  {
    if |a| == 0 {
      assert a + b == b;
    } else {
      assert (a + b)[0] == a[0] && (a + b)[1..] == a[1..] + b;
      TextAppend(a[1..], b);
    }
  }

  /** The output file's text begins with the core file's text. */
  lemma OutputTextStartsWithCore(core: seq<string>, listing: seq<Entry>)
    ensures JsText.StartsWith(Text(Bundle(core, listing)), Text(core))
  {
    TextAppend(core, Contributions(listing));
  }
}
