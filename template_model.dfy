/**
 * The template cache as values: the raw bank (path -> decoded image), the
 * probing of one filename through the registered roots, the assembly of a
 * name's image list, and the effect of each public operation on the three
 * tables. The class in module Resource is proved against these functions.
 */
module TemplateModel {
  import opened Env

  type Name = string

  datatype Option<T> = None | Some(value: T)

  /** Where a logical name's templates live: candidate roots in registration
      order (the last one has the highest priority) and the relative filenames. */
  datatype Paths = Paths(roots: seq<Path>, filenames: seq<string>)

  /** The three member maps of the cache. */
  datatype Tables = Tables(
    paths: map<Name, Paths>,          // registered names
    cache: map<Name, seq<Image>>,     // assembled image lists
    bank: map<Path, Image>            // decoded images by resolved path
  )

  const Fresh: Tables := Tables(map[], map[], map[])

  // ---------------------------------------------------------------------------
  // The raw bank
  // ---------------------------------------------------------------------------

  /** The image that a bank lookup of `path` yields: the banked image, else the
      decoded file when it exists, else the empty image. */
  function Resolve(bank: map<Path, Image>, fs: Disk, path: Path): Image {
    if path in bank then bank[path]
    else if fs.present(path) then fs.decode(path)
    else Blank
  }

  /** The bank after one lookup of `path`: an existing file that is not yet
      banked is decoded and banked, even when decoding yields an empty image. */
  function Store(bank: map<Path, Image>, fs: Disk, path: Path): map<Path, Image> {
    if path in bank || !fs.present(path) then bank
    else bank[path := fs.decode(path)]
  }

  /** The bank after looking up every path of `trace`, in order. */
  function Fill(bank: map<Path, Image>, fs: Disk, trace: seq<Path>): map<Path, Image>
    decreases |trace|
  {
    if trace == [] then bank
    else Store(Fill(bank, fs, trace[..|trace| - 1]), fs, trace[|trace| - 1])
  }

  /** The bank after a run of lookups: first decode wins (a banked image is
      never replaced), and exactly the existing paths of the trace are added,
      each with its decoded image. */
  lemma {:induction false} FillShape(bank: map<Path, Image>, fs: Disk, trace: seq<Path>)
    ensures var b := Fill(bank, fs, trace);
      && (forall p :: p in bank ==> p in b && b[p] == bank[p])
      && (forall p :: p in b <==> p in bank || (p in trace && fs.present(p)))
      && (forall p :: p in b && p !in bank ==> b[p] == fs.decode(p))
    decreases |trace|
  {
    if trace != [] {
      var front := trace[..|trace| - 1];
      FillShape(bank, fs, front);
      assert forall p :: p in trace <==> p in front || p == trace[|trace| - 1];
    }
  }

  /** Banking never changes what a path resolves to. */
  lemma FillResolves(bank: map<Path, Image>, fs: Disk, trace: seq<Path>, p: Path)
    ensures Resolve(Fill(bank, fs, trace), fs, p) == Resolve(bank, fs, p)
  {
    FillShape(bank, fs, trace);
  }

  /** A resolvable non-empty image ends up in the bank once its path is looked up. */
  lemma {:induction false} FillBanks(bank: map<Path, Image>, fs: Disk, trace: seq<Path>, p: Path)
    requires p in trace && !Resolve(bank, fs, p).IsEmpty()
    ensures p in Fill(bank, fs, trace) && Fill(bank, fs, trace)[p] == Resolve(bank, fs, p)
    ensures Resolve(bank, fs, p) in Fill(bank, fs, trace).Values
  {
    FillShape(bank, fs, trace);
    var b := Fill(bank, fs, trace);
    assert p in bank || fs.present(p);
    assert p in b;
  }

  /** Looking up one more path is one more Store. */
  lemma FillStep(bank: map<Path, Image>, fs: Disk, trace: seq<Path>, p: Path)
    ensures Fill(bank, fs, trace + [p]) == Store(Fill(bank, fs, trace), fs, p)
  {
    assert (trace + [p])[..|trace|] == trace;
  }

  // ---------------------------------------------------------------------------
  // Probing one filename: roots from the last registered to the first
  // ---------------------------------------------------------------------------

  /** What the probe of one filename found, and the paths it looked up, in order. */
  datatype Probe = Probe(hit: Option<Image>, trace: seq<Path>)

  /** The probe of `filename` under roots[j - 1], roots[j - 2], ..., roots[0],
      stopping at the first root that yields a non-empty image. */
  function ProbeBelow(bank: map<Path, Image>, fs: Disk, roots: seq<Path>, filename: string, j: nat): (r: Probe)
    requires j <= |roots|
    ensures r.hit.Some? ==> !r.hit.value.IsEmpty()
    ensures r.hit.Some? ==> r.trace != [] && r.hit.value == Resolve(bank, fs, r.trace[|r.trace| - 1])
    decreases j
  {
    if j == 0 then Probe(None, [])
    else
      var path := Join(roots[j - 1], filename);
      var image := Resolve(bank, fs, path);
      if !image.IsEmpty() then Probe(Some(image), [path])
      else
        var rest := ProbeBelow(bank, fs, roots, filename, j - 1);
        Probe(rest.hit, [path] + rest.trace)
  }

  /** The probe of `filename` under every root, the last registered first. */
  function ProbeRoots(bank: map<Path, Image>, fs: Disk, roots: seq<Path>, filename: string): Probe {
    ProbeBelow(bank, fs, roots, filename, |roots|)
  }

  /** The probe continued from position j, once the paths `done` have been
      looked up in vain: the shape of the loop that runs the probe. */
  function ProbeFrom(bank: map<Path, Image>, fs: Disk, roots: seq<Path>, filename: string, j: nat,
                     done: seq<Path>): Probe
    requires j <= |roots|
    decreases j
  {
    if j == 0 then Probe(None, done)
    else
      var path := Join(roots[j - 1], filename);
      var image := Resolve(bank, fs, path);
      if !image.IsEmpty() then Probe(Some(image), done + [path])
      else ProbeFrom(bank, fs, roots, filename, j - 1, done + [path])
  }

  /** Continuing a probe adds the paths it looks up after those already done. */
  lemma {:induction false} ProbeFromBelow(bank: map<Path, Image>, fs: Disk, roots: seq<Path>, filename: string,
                                          j: nat, done: seq<Path>)
    requires j <= |roots|
    ensures ProbeFrom(bank, fs, roots, filename, j, done) ==
            Probe(ProbeBelow(bank, fs, roots, filename, j).hit, done + ProbeBelow(bank, fs, roots, filename, j).trace)
    decreases j
  {
    if j == 0 {
      assert done + [] == done;
    } else {
      var path := Join(roots[j - 1], filename);
      if Resolve(bank, fs, path).IsEmpty() {
        ProbeFromBelow(bank, fs, roots, filename, j - 1, done + [path]);
        var rest := ProbeBelow(bank, fs, roots, filename, j - 1);
        assert (done + [path]) + rest.trace == done + ([path] + rest.trace);
      }
    }
  }

  /** The probe loop's step in terms of the bank: with the bank `before`
      holding the lookups of `trace` and `done`, one more lookup yields the
      image that the path resolves to in the original bank, and the bank
      `after` holds the lookups of `trace`, `done` and that path. Whether the
      probe ends there follows. */
  lemma ProbeLoopStep(bank0: map<Path, Image>, fs: Disk, roots: seq<Path>, filename: string, j: nat,
                      trace: seq<Path>, done: seq<Path>, whole: Probe,
                      before: map<Path, Image>, after: map<Path, Image>, image: Image)
    requires 0 < j <= |roots|
    requires before == Fill(bank0, fs, trace + done)
    requires whole == ProbeFrom(bank0, fs, roots, filename, j, done)
    requires var path := Join(roots[j - 1], filename);
      image == Resolve(before, fs, path) && after == Store(before, fs, path)
    ensures var path := Join(roots[j - 1], filename);
      && after == Fill(bank0, fs, trace + (done + [path]))
      && whole == if !image.IsEmpty() then Probe(Some(image), done + [path])
                  else ProbeFrom(bank0, fs, roots, filename, j - 1, done + [path])
  {
    var path := Join(roots[j - 1], filename);
    FillResolves(bank0, fs, trace + done, path);
    FillStep(bank0, fs, trace + done, path);
    assert (trace + done) + [path] == trace + (done + [path]);
  }

  /** The paths of `filename` under roots[j - 1], roots[j - 2], ..., roots[i]. */
  function Shadowing(roots: seq<Path>, filename: string, i: nat, j: nat): (ps: seq<Path>)
    requires i <= j <= |roots|
  {
    seq(j - i, t requires 0 <= t < j - i => Join(roots[j - 1 - t], filename))
  }

  /** Probing one more (later) root looks it up first. */
  lemma ShadowingCons(roots: seq<Path>, filename: string, i: nat, j: nat)
    requires i < j <= |roots|
    ensures Shadowing(roots, filename, i, j) == [Join(roots[j - 1], filename)] + Shadowing(roots, filename, i, j - 1)
  {
  }

  /** What `filename` resolves to under the root registered at position j. */
  function Under(bank: map<Path, Image>, fs: Disk, roots: seq<Path>, filename: string, j: nat): Image
    requires j < |roots|
  {
    Resolve(bank, fs, Join(roots[j], filename))
  }

  /** Probing roots[j - 1] down to roots[0] finds nothing exactly when none of
      them yields a non-empty image, and then has looked up every one of them. */
  lemma {:induction false} ProbeMisses(bank: map<Path, Image>, fs: Disk, roots: seq<Path>, filename: string, j: nat)
    requires j <= |roots|
    ensures var r := ProbeBelow(bank, fs, roots, filename, j);
      r.hit.None? <==> forall k :: 0 <= k < j ==> Under(bank, fs, roots, filename, k).IsEmpty()
    ensures var r := ProbeBelow(bank, fs, roots, filename, j);
      r.hit.None? ==> r.trace == Shadowing(roots, filename, 0, j)
    decreases j
  {
    if j > 0 {
      ProbeMisses(bank, fs, roots, filename, j - 1);
      if Under(bank, fs, roots, filename, j - 1).IsEmpty() {
        ShadowingCons(roots, filename, 0, j);
      }
    }
  }

  /** Probe result `r` over roots[j - 1] down to roots[0] found the image
      under position i: every later root yields an empty image, and exactly
      the roots from j - 1 down to i have been looked up. */
  ghost predicate FoundAt(bank: map<Path, Image>, fs: Disk, roots: seq<Path>, filename: string, i: nat, j: nat, r: Probe)
    requires j <= |roots|
  {
    && i < j
    && r.hit == Some(Under(bank, fs, roots, filename, i))
    && r.trace == Shadowing(roots, filename, i, j)
    && forall k :: i < k < j ==> Under(bank, fs, roots, filename, k).IsEmpty()
  }

  /** A probe that misses at position j - 1 and finds the image under i below
      it has found the image under i from j. */
  lemma FoundAtCons(bank: map<Path, Image>, fs: Disk, roots: seq<Path>, filename: string, i: nat, j: nat)
    requires 0 < j <= |roots|
    requires Under(bank, fs, roots, filename, j - 1).IsEmpty()
    requires FoundAt(bank, fs, roots, filename, i, j - 1, ProbeBelow(bank, fs, roots, filename, j - 1))
    ensures FoundAt(bank, fs, roots, filename, i, j, ProbeBelow(bank, fs, roots, filename, j))
  {
    ShadowingCons(roots, filename, i, j);
  }

  /** Probing roots[j - 1] down to roots[0] and finding an image: it is the
      image under the highest position i that yields a non-empty one, and
      exactly the roots from j - 1 down to i have been looked up. */
  lemma {:induction false} ProbeFinds(bank: map<Path, Image>, fs: Disk, roots: seq<Path>, filename: string, j: nat)
    requires j <= |roots|
    ensures ProbeBelow(bank, fs, roots, filename, j).hit.Some? ==>
      exists i :: FoundAt(bank, fs, roots, filename, i, j, ProbeBelow(bank, fs, roots, filename, j))
    decreases j
  {
    if j > 0 {
      if !Under(bank, fs, roots, filename, j - 1).IsEmpty() {
        assert FoundAt(bank, fs, roots, filename, j - 1, j, ProbeBelow(bank, fs, roots, filename, j));
      } else {
        ProbeFinds(bank, fs, roots, filename, j - 1);
        if ProbeBelow(bank, fs, roots, filename, j - 1).hit.Some? {
          var i :| FoundAt(bank, fs, roots, filename, i, j - 1, ProbeBelow(bank, fs, roots, filename, j - 1));
          FoundAtCons(bank, fs, roots, filename, i, j);
        }
      }
    }
  }

  /** Override precedence: probing a filename returns the image under the LAST
      registered root that yields a non-empty one, after looking up that root
      and every later one, in reverse registration order, and without looking
      up any earlier one. When no root yields a non-empty image, every root is
      looked up and nothing is found. */
  lemma ProbeOverride(bank: map<Path, Image>, fs: Disk, roots: seq<Path>, filename: string)
    ensures var r := ProbeRoots(bank, fs, roots, filename);
      && (r.hit.None? <==> forall k :: 0 <= k < |roots| ==> Under(bank, fs, roots, filename, k).IsEmpty())
      && (r.hit.None? ==> r.trace == Shadowing(roots, filename, 0, |roots|))
    ensures var r := ProbeRoots(bank, fs, roots, filename);
      r.hit.Some? ==>
        exists i :: 0 <= i < |roots|
          && r.hit.value == Under(bank, fs, roots, filename, i)
          && r.trace == Shadowing(roots, filename, i, |roots|)
          && forall k :: i < k < |roots| ==> Under(bank, fs, roots, filename, k).IsEmpty()
  {
    ProbeMisses(bank, fs, roots, filename, |roots|);
    ProbeFinds(bank, fs, roots, filename, |roots|);
    var r := ProbeRoots(bank, fs, roots, filename);
    if r.hit.Some? {
      var i :| FoundAt(bank, fs, roots, filename, i, |roots|, r);
    }
  }

  // ---------------------------------------------------------------------------
  // Assembling a name's list: every filename in order
  // ---------------------------------------------------------------------------

  /** The images collected so far, every path looked up so far, and whether a
      strict load gave up on a filename that resolved to nothing. */
  datatype Gathered = Gathered(images: seq<Image>, trace: seq<Path>, aborted: bool)

  function Gather(bank: map<Path, Image>, fs: Disk, roots: seq<Path>, files: seq<string>, strict: bool): (r: Gathered)
    ensures forall k :: 0 <= k < |r.images| ==> !r.images[k].IsEmpty()
    ensures |r.images| <= |files|
    ensures r.aborted ==> strict
    decreases |files|
  {
    if files == [] then Gathered([], [], false)
    else
      var prev := Gather(bank, fs, roots, files[..|files| - 1], strict);
      if prev.aborted then prev
      else
        var probe := ProbeRoots(bank, fs, roots, files[|files| - 1]);
        var trace := prev.trace + probe.trace;
        match probe.hit
        case Some(image) => Gathered(prev.images + [image], trace, false)
        case None => Gathered(prev.images, trace, strict)
  }

  /** `image` is what one of the paths of `trace` resolves to. */
  ghost predicate Traced(bank: map<Path, Image>, fs: Disk, image: Image, trace: seq<Path>) {
    exists q :: q in trace && image == Resolve(bank, fs, q)
  }

  /** Assembling one more filename. */
  lemma GatherStep(bank: map<Path, Image>, fs: Disk, roots: seq<Path>, files: seq<string>, strict: bool, i: nat)
    requires i < |files|
    ensures var prev := Gather(bank, fs, roots, files[..i], strict);
      var probe := ProbeRoots(bank, fs, roots, files[i]);
      !prev.aborted ==>
        Gather(bank, fs, roots, files[..i + 1], strict) ==
          if probe.hit.Some? then Gathered(prev.images + [probe.hit.value], prev.trace + probe.trace, false)
          else Gathered(prev.images, prev.trace + probe.trace, strict)
  {
    assert files[..i + 1][..i] == files[..i];
  }

  /** Every image of an assembled list is what some looked-up path resolved to. */
  lemma {:induction false} GatherFromTrace(bank: map<Path, Image>, fs: Disk, roots: seq<Path>, files: seq<string>, strict: bool)
    ensures forall k :: 0 <= k < |Gather(bank, fs, roots, files, strict).images| ==>
      Traced(bank, fs, Gather(bank, fs, roots, files, strict).images[k], Gather(bank, fs, roots, files, strict).trace)
    decreases |files|
  {
    if files != [] {
      var front := files[..|files| - 1];
      GatherFromTrace(bank, fs, roots, front, strict);
      var prev := Gather(bank, fs, roots, front, strict);
      if !prev.aborted {
        var probe := ProbeRoots(bank, fs, roots, files[|files| - 1]);
        var g := Gather(bank, fs, roots, files, strict);
        assert g.trace == prev.trace + probe.trace;
        forall k | 0 <= k < |g.images|
          ensures Traced(bank, fs, g.images[k], g.trace)
        {
          if k < |prev.images| {
            assert Traced(bank, fs, prev.images[k], prev.trace);
            var q :| q in prev.trace && prev.images[k] == Resolve(bank, fs, q);
            assert q in g.trace;
          } else {
            var q := probe.trace[|probe.trace| - 1];
            assert q in g.trace;
          }
        }
      }
    }
  }

  /** Once a strict load gives up, the remaining filenames are not looked at. */
  lemma {:induction false} AbortSticks(bank: map<Path, Image>, fs: Disk, roots: seq<Path>, files: seq<string>, strict: bool, i: nat)
    requires i <= |files|
    requires Gather(bank, fs, roots, files[..i], strict).aborted
    ensures Gather(bank, fs, roots, files, strict) == Gather(bank, fs, roots, files[..i], strict)
    decreases |files|
  {
    if i < |files| {
      var front := files[..|files| - 1];
      assert front[..i] == files[..i];
      AbortSticks(bank, fs, roots, front, strict, i);
    } else {
      assert files[..i] == files;
    }
  }

  /** What each filename's probe found, position by position. */
  function Hits(bank: map<Path, Image>, fs: Disk, roots: seq<Path>, files: seq<string>): (h: seq<Option<Image>>)
    ensures |h| == |files|
  {
    seq(|files|, k requires 0 <= k < |files| => ProbeRoots(bank, fs, roots, files[k]).hit)
  }

  /** The values of the `Some` entries of `s`, in order. */
  function Somes<T>(s: seq<Option<T>>): (r: seq<T>)
    ensures |r| <= |s|
    ensures |r| == |s| <==> forall k :: 0 <= k < |s| ==> s[k].Some?
    decreases |s|
  {
    if s == [] then []
    else
      Somes(s[..|s| - 1]) + match s[|s| - 1] { case Some(v) => [v] case None => [] }
  }

  lemma {:induction false} HitsFront(bank: map<Path, Image>, fs: Disk, roots: seq<Path>, files: seq<string>)
    requires files != []
    ensures Hits(bank, fs, roots, files) ==
            Hits(bank, fs, roots, files[..|files| - 1]) + [ProbeRoots(bank, fs, roots, files[|files| - 1]).hit]
  {
    var front := files[..|files| - 1];
    assert forall k :: 0 <= k < |front| ==> front[k] == files[k];
  }

  /** Lenient mode: the list holds, in filename order, the image found for
      every filename that resolved, skipping only those that did not. */
  lemma {:induction false} LenientKeepsHits(bank: map<Path, Image>, fs: Disk, roots: seq<Path>, files: seq<string>)
    ensures Gather(bank, fs, roots, files, false).images == Somes(Hits(bank, fs, roots, files))
    decreases |files|
  {
    if files != [] {
      LenientKeepsHits(bank, fs, roots, files[..|files| - 1]);
      HitsFront(bank, fs, roots, files);
    }
  }

  /** Strict mode: the load gives up exactly when some filename resolves to
      nothing, and otherwise the list is aligned with the filenames. */
  lemma {:induction false} StrictAligned(bank: map<Path, Image>, fs: Disk, roots: seq<Path>, files: seq<string>)
    ensures var g := Gather(bank, fs, roots, files, true);
      g.aborted <==> exists k :: 0 <= k < |files| && ProbeRoots(bank, fs, roots, files[k]).hit.None?
    ensures var g := Gather(bank, fs, roots, files, true);
      !g.aborted ==>
        |g.images| == |files| &&
        forall k :: 0 <= k < |files| ==> ProbeRoots(bank, fs, roots, files[k]).hit == Some(g.images[k])
    decreases |files|
  {
    if files != [] {
      var front := files[..|files| - 1];
      StrictAligned(bank, fs, roots, front);
      assert forall k :: 0 <= k < |front| ==> front[k] == files[k];
      var prev := Gather(bank, fs, roots, front, true);
      if prev.aborted {
        var k :| 0 <= k < |front| && ProbeRoots(bank, fs, roots, front[k]).hit.None?;
        assert ProbeRoots(bank, fs, roots, files[k]).hit.None?;
      }
    }
  }

  /** The list a load assembles for registered paths `p` (empty when a strict load gives up). */
  function Assembled(bank: map<Path, Image>, fs: Disk, p: Paths, strict: bool): seq<Image> {
    var g := Gather(bank, fs, p.roots, p.filenames, strict);
    if g.aborted then [] else g.images
  }

  // ---------------------------------------------------------------------------
  // The operations on the tables
  // ---------------------------------------------------------------------------

  /** An operation's returned images and the tables after it. */
  datatype Reply = Reply(images: seq<Image>, after: Tables)

  /** load_images: assemble the list of a registered name and cache it when it
      is non-empty. The cache is inserted into without overwriting, so an entry
      already present is kept and returned. */
  function LoadOutcome(s: Tables, fs: Disk, name: Name, strict: bool): Reply {
    if name !in s.paths then Reply([], s)
    else
      var p := s.paths[name];
      var g := Gather(s.bank, fs, p.roots, p.filenames, strict);
      var bank := Fill(s.bank, fs, g.trace);
      var list := if g.aborted then [] else g.images;
      if list == [] then Reply([], s.(bank := bank))
      else if name in s.cache then Reply(s.cache[name], s.(bank := bank))
      else Reply(list, s.(cache := s.cache[name := list], bank := bank))
  }

  /** get_template_images: a cached list is returned as it is, otherwise the name is loaded. */
  function LookupOutcome(s: Tables, fs: Disk, name: Name, strict: bool): Reply {
    if name in s.cache then Reply(s.cache[name], s) else LoadOutcome(s, fs, name, strict)
  }

  /** Whether a registration succeeded, and the tables after it. */
  datatype Registered = Registered(ok: bool, after: Tables)

  /** The tables right after lazy_load has recorded `root` and `files` for
      `name` and dropped its cached list. */
  function Recorded(s: Tables, name: Name, root: Path, files: seq<string>): Tables {
    var roots := if name in s.paths then s.paths[name].roots else [];
    Tables(s.paths[name := Paths(roots + [root], files)], s.cache - {name}, s.bank)
  }

  /** lazy_load: record the registration; a strict cache then looks the name up
      and fails on an empty list or an empty image. */
  function RegisterOutcome(s: Tables, fs: Disk, name: Name, root: Path, files: seq<string>, strict: bool): Registered {
    var s1 := Recorded(s, name, root, files);
    if strict then
      var r := LookupOutcome(s1, fs, name, strict);
      Registered(r.images != [] && forall k :: 0 <= k < |r.images| ==> !r.images[k].IsEmpty(), r.after)
    else Registered(true, s1)
  }

  // ---------------------------------------------------------------------------
  // Properties of the operations
  // ---------------------------------------------------------------------------

  /** The invariant the cache keeps: a name is cached only once registered;
      its cached list is non-empty, has at most one image per current filename
      (exactly one in strict mode), and is made of non-empty images held by
      the bank. */
  ghost predicate Coherent(s: Tables, strict: bool) {
    && (forall n :: n in s.cache ==> n in s.paths)
    && (forall n :: n in s.cache ==> s.cache[n] != [])
    && (forall n :: n in s.cache && n in s.paths ==>
          |s.cache[n]| <= |s.paths[n].filenames| && (strict ==> |s.cache[n]| == |s.paths[n].filenames|))
    && (forall n, k :: n in s.cache && 0 <= k < |s.cache[n]| ==>
          !s.cache[n][k].IsEmpty() && s.cache[n][k] in s.bank.Values)
  }

  /** Banking more images keeps the invariant. */
  lemma BankGrowthKeepsCoherent(s: Tables, strict: bool, bank: map<Path, Image>)
    requires Coherent(s, strict)
    requires forall p :: p in s.bank ==> p in bank && bank[p] == s.bank[p]
    ensures Coherent(s.(bank := bank), strict)
  {
    forall n, k | n in s.cache && 0 <= k < |s.cache[n]|
      ensures s.cache[n][k] in bank.Values
    {
      assert s.cache[n][k] in s.bank.Values;
      var p :| p in s.bank && s.bank[p] == s.cache[n][k];
      assert bank[p] == s.cache[n][k];
    }
  }

  /** The list a load assembles is made of images the bank then holds. */
  lemma AssembledInBank(bank: map<Path, Image>, fs: Disk, p: Paths, strict: bool, g: Gathered)
    requires g == Gather(bank, fs, p.roots, p.filenames, strict)
    ensures forall k :: 0 <= k < |g.images| ==> g.images[k] in Fill(bank, fs, g.trace).Values
  {
    GatherFromTrace(bank, fs, p.roots, p.filenames, strict);
    forall k | 0 <= k < |g.images|
      ensures g.images[k] in Fill(bank, fs, g.trace).Values
    {
      assert Traced(bank, fs, g.images[k], g.trace);
      var q :| q in g.trace && g.images[k] == Resolve(bank, fs, q);
      FillBanks(bank, fs, g.trace, q);
    }
  }

  lemma CoherentLoad(s: Tables, fs: Disk, name: Name, strict: bool)
    requires Coherent(s, strict)
    ensures Coherent(LoadOutcome(s, fs, name, strict).after, strict)
  {
    if name in s.paths {
      var p := s.paths[name];
      var g := Gather(s.bank, fs, p.roots, p.filenames, strict);
      var bank := Fill(s.bank, fs, g.trace);
      FillShape(s.bank, fs, g.trace);
      BankGrowthKeepsCoherent(s, strict, bank);
      AssembledInBank(s.bank, fs, p, strict, g);
      if strict {
        StrictAligned(s.bank, fs, p.roots, p.filenames);
      }
      var list := if g.aborted then [] else g.images;
      if list != [] && name !in s.cache {
        var s2 := s.(cache := s.cache[name := list], bank := bank);
        assert LoadOutcome(s, fs, name, strict).after == s2;
        assert Coherent(s.(bank := bank), strict);
        assert Coherent(s2, strict);
      }
    }
  }

  /** Every operation keeps the invariant, and the fresh tables satisfy it. */
  lemma CoherentAlways(s: Tables, fs: Disk, name: Name, root: Path, files: seq<string>, strict: bool)
    requires Coherent(s, strict)
    ensures Coherent(Fresh, strict)
    ensures Coherent(LookupOutcome(s, fs, name, strict).after, strict)
    ensures Coherent(RegisterOutcome(s, fs, name, root, files, strict).after, strict)
  {
    CoherentLoad(s, fs, name, strict);
    var s1 := Recorded(s, name, root, files);
    assert forall n :: n in s1.cache ==> n != name && n in s.cache && s1.paths[n] == s.paths[n];
    assert Coherent(s1, strict);
    CoherentLoad(s1, fs, name, strict);
  }

  /** A load never changes the registrations, and changes the cache only when
      it yields images: then the name is cached with exactly those images and
      no other name's entry changes. An unregistered name changes nothing. */
  lemma LoadCachesOnSuccess(s: Tables, fs: Disk, name: Name, strict: bool)
    ensures var r := LoadOutcome(s, fs, name, strict);
      && r.after.paths == s.paths
      && (r.images == [] ==> r.after.cache == s.cache)
      && (r.images != [] ==> name in r.after.cache && r.after.cache[name] == r.images)
      && (forall n :: n != name ==> (n in r.after.cache <==> n in s.cache))
      && (forall n :: n != name && n in s.cache ==> r.after.cache[n] == s.cache[n])
      && (name !in s.paths ==> r == Reply([], s))
  {
  }

  /** A cache miss returns exactly the assembled list. */
  lemma LookupMissAssembles(s: Tables, fs: Disk, name: Name, strict: bool)
    requires name in s.paths && name !in s.cache
    ensures var r := LookupOutcome(s, fs, name, strict);
      && r.images == Assembled(s.bank, fs, s.paths[name], strict)
      && r.after.bank == Fill(s.bank, fs, Gather(s.bank, fs, s.paths[name].roots, s.paths[name].filenames, strict).trace)
  {
  }

  /** Every image a lookup returns is non-empty. */
  lemma LookupNonEmpty(s: Tables, fs: Disk, name: Name, strict: bool)
    requires Coherent(s, strict)
    ensures var r := LookupOutcome(s, fs, name, strict);
      forall k :: 0 <= k < |r.images| ==> !r.images[k].IsEmpty()
  {
  }

  /** Every non-empty list a lookup returns, from the cache or freshly
      assembled, has at most one image per filename the name is registered
      with, and exactly one per filename in strict mode. */
  lemma LookupAligned(s: Tables, fs: Disk, name: Name, strict: bool)
    requires Coherent(s, strict)
    ensures var r := LookupOutcome(s, fs, name, strict);
      r.images != [] ==>
        && name in s.paths
        && |r.images| <= |s.paths[name].filenames|
        && (strict ==> |r.images| == |s.paths[name].filenames|)
  {
    CoherentLoad(s, fs, name, strict);
  }

  /** A cache hit: a second lookup of a name that yielded images returns the
      same images and changes nothing, whatever the filesystem now holds. */
  lemma LookupTwice(s: Tables, fs: Disk, later: Disk, name: Name, strict: bool)
    ensures var r1 := LookupOutcome(s, fs, name, strict);
      r1.images != [] ==> LookupOutcome(r1.after, later, name, strict) == r1
  {
  }

  /** An unregistered name yields no images and creates no entries. */
  lemma UnknownName(s: Tables, fs: Disk, name: Name, strict: bool)
    requires Coherent(s, strict) && name !in s.paths
    ensures LookupOutcome(s, fs, name, strict) == Reply([], s)
  {
  }

  /** After clearing, every lookup behaves as on a new cache: nothing is found
      and nothing is created. */
  lemma ClearedLookup(fs: Disk, name: Name, strict: bool)
    ensures LookupOutcome(Fresh, fs, name, strict) == Reply([], Fresh)
  {
  }

  /** Registration appends the root, replaces the filenames, leaves every
      other name's registration alone and drops the name's cached list; in
      lenient mode it always succeeds and touches neither cache nor bank. */
  lemma RegisterRecords(s: Tables, fs: Disk, name: Name, root: Path, files: seq<string>, strict: bool)
    ensures var r := RegisterOutcome(s, fs, name, root, files, strict);
      && name in r.after.paths
      && r.after.paths[name].filenames == files
      && r.after.paths[name].roots == (if name in s.paths then s.paths[name].roots else []) + [root]
      && (forall n :: n != name ==> (n in r.after.paths <==> n in s.paths))
      && (forall n :: n != name && n in s.paths ==> r.after.paths[n] == s.paths[n])
    ensures var r := RegisterOutcome(s, fs, name, root, files, strict);
      !strict ==> r.ok && r.after.cache == s.cache - {name} && r.after.bank == s.bank
  {
    var s1 := Recorded(s, name, root, files);
    if strict {
      LoadCachesOnSuccess(s1, fs, name, strict);
    }
  }

  /** Strict registration fails exactly when the probe yields no images, and
      otherwise caches them; its bank is the one the probe produced. */
  lemma StrictRegisterProbes(s: Tables, fs: Disk, name: Name, root: Path, files: seq<string>)
    ensures var s1 := Recorded(s, name, root, files);
      var list := Assembled(s.bank, fs, s1.paths[name], true);
      var r := RegisterOutcome(s, fs, name, root, files, true);
      && (r.ok <==> list != [])
      && (r.ok ==> r.after.cache == (s.cache - {name})[name := list])
      && (!r.ok ==> r.after.cache == s.cache - {name})
      && r.after.bank == Fill(s.bank, fs, Gather(s.bank, fs, s1.paths[name].roots, files, true).trace)
  {
  }

  /** A lenient re-registration invalidates: the next lookup re-assembles the
      list, and for every filename the new root is the first one probed. */
  lemma ReregisterInvalidates(s: Tables, fs: Disk, later: Disk, name: Name, root: Path, files: seq<string>)
    ensures var r := RegisterOutcome(s, fs, name, root, files, false);
      && LookupOutcome(r.after, later, name, false) == LoadOutcome(r.after, later, name, false)
      && var roots := r.after.paths[name].roots;
         roots != [] && roots[|roots| - 1] == root
    ensures var r := RegisterOutcome(s, fs, name, root, files, false);
      forall f :: ProbeRoots(r.after.bank, later, r.after.paths[name].roots, f).trace != [] &&
                  ProbeRoots(r.after.bank, later, r.after.paths[name].roots, f).trace[0] == Join(root, f)
  {
  }

  /** A name with two filenames, the first resolving and the second not:
      strict mode yields nothing, lenient mode yields the first image alone. */
  lemma StrictLenientDiverge(bank: map<Path, Image>, fs: Disk, roots: seq<Path>, a: string, b: string, image: Image)
    requires ProbeRoots(bank, fs, roots, a).hit == Some(image)
    requires ProbeRoots(bank, fs, roots, b).hit == None
    ensures Assembled(bank, fs, Paths(roots, [a, b]), true) == []
    ensures Assembled(bank, fs, Paths(roots, [a, b]), false) == [image]
  {
    StrictAligned(bank, fs, roots, [a, b]);
    LenientKeepsHits(bank, fs, roots, [a, b]);
    var h := Hits(bank, fs, roots, [a, b]);
    assert h == [Some(image), None];
    assert h[..1] == [Some(image)];
    assert h[..1][..0] == [];
  }
}
