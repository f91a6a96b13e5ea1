/**
 * The template cache object: three member maps updated in place, a strict or
 * lenient validation mode fixed at construction, and a ghost log of decodes.
 * Every method is proved to have the effect that module TemplateModel
 * describes, and to keep the invariant Valid().
 */
module Resource {
  import opened Env
  import opened TemplateModel

  class TemplateConfig {
    /** Strict mode validates a name when it is registered; lenient mode defers. */
    const strict: bool

    var paths: map<Name, Paths>
    var cache: map<Name, seq<Image>>
    var bank: map<Path, Image>

    /** Every path decoded since construction or the last Clear, in order. */
    ghost var decoded: seq<Path>

    /** The three maps as a value. */
    function State(): Tables
      reads this
    {
      Tables(paths, cache, bank)
    }

    /** The object invariant: the tables are coherent, no path has been decoded
        twice, and the bank holds exactly the paths decoded. */
    ghost predicate Valid()
      reads this
    {
      && Coherent(State(), strict)
      && (forall i, j :: 0 <= i < j < |decoded| ==> decoded[i] != decoded[j])
      && (forall p :: p in bank <==> p in decoded)
    }

    constructor (strict: bool)
      ensures Valid()
      ensures this.strict == strict && State() == Fresh && decoded == []
    {
      this.strict := strict;
      paths, cache, bank := map[], map[], map[];
      decoded := [];
    }

    /** Register `root` and `filenames` for `name` (lazy_load). */
    method LazyLoad(name: Name, root: Path, filenames: seq<string>, fs: Disk) returns (ok: bool)
      requires Valid()
      modifies this
      ensures Valid()
      ensures Registered(ok, State()) == RegisterOutcome(old(State()), fs, name, root, filenames, strict)
      ensures !strict ==> decoded == old(decoded)
      ensures old(decoded) <= decoded
    {
      var roots := if name in paths then paths[name].roots else [];
      paths := paths[name := Paths(roots + [root], filenames)];
      cache := cache - {name};
      assert State() == Recorded(old(State()), name, root, filenames);
      assert Valid();
      if strict {
        var images := GetTemplateImages(name, fs);
        ok := images != [] && forall k :: 0 <= k < |images| ==> !images[k].IsEmpty();
        return;
      }
      ok := true;
    }

    /** Drop every registration, cached list and banked image (clear). */
    method Clear()
      requires Valid()
      modifies this
      ensures Valid()
      ensures State() == Fresh && decoded == []
    {
      paths, cache, bank := map[], map[], map[];
      decoded := [];
    }

    /** The images of `name`, from the cache when present (get_template_images). */
    method GetTemplateImages(name: Name, fs: Disk) returns (images: seq<Image>)
      requires Valid()
      modifies this
      ensures Valid()
      ensures Reply(images, State()) == LookupOutcome(old(State()), fs, name, strict)
      ensures old(decoded) <= decoded
    {
      if name in cache {
        return cache[name];
      }
      images := LoadImages(name, fs);
    }

    /** Assemble and cache the images of `name` (load_images): for every
        filename, probe the roots from the last registered to the first. */
    method LoadImages(name: Name, fs: Disk) returns (images: seq<Image>)
      requires Valid()
      modifies this
      ensures Valid()
      ensures Reply(images, State()) == LoadOutcome(old(State()), fs, name, strict)
      ensures old(decoded) <= decoded
    {
      if name !in paths {
        return [];
      }
      CoherentLoad(State(), fs, name, strict);
      var p := paths[name];
      ghost var bank0 := bank;
      var list: seq<Image> := [];
      ghost var trace: seq<Path> := [];
      var i := 0;
      while i < |p.filenames|
        invariant 0 <= i <= |p.filenames|
        invariant Valid() && paths == old(paths) && cache == old(cache)
        invariant old(decoded) <= decoded
        invariant var g := Gather(bank0, fs, p.roots, p.filenames[..i], strict);
          !g.aborted && list == g.images && trace == g.trace
        invariant bank == Fill(bank0, fs, trace)
      {
        var filename := p.filenames[i];
        ghost var local: seq<Path>;
        var templ;
        templ, local := ProbeFilename(p.roots, filename, fs, bank0, trace);
        GatherStep(bank0, fs, p.roots, p.filenames, strict, i);
        if templ.IsEmpty() {
          if strict {
            AbortSticks(bank0, fs, p.roots, p.filenames, strict, i + 1);
            return [];
          }
        } else {
          list := list + [templ];
        }
        trace := trace + local;
        i := i + 1;
      }
      assert p.filenames[..i] == p.filenames;
      if list == [] {
        return [];
      }
      if name in cache {
        // an existing entry is kept: the insertion does not overwrite
        return cache[name];
      }
      cache := cache[name := list];
      images := list;
    }

    /** The image of one filename (load_images, inner loop): the roots are
        probed from the last registered to the first until one yields a
        non-empty image; `local` is the paths looked up. */
    method ProbeFilename(roots: seq<Path>, filename: string, fs: Disk, ghost bank0: map<Path, Image>,
                         ghost trace: seq<Path>) returns (templ: Image, ghost local: seq<Path>)
      requires Valid() && bank == Fill(bank0, fs, trace)
      modifies this
      ensures Valid() && paths == old(paths) && cache == old(cache)
      ensures old(decoded) <= decoded
      ensures ProbeRoots(bank0, fs, roots, filename) == Probe(if templ.IsEmpty() then None else Some(templ), local)
      ensures bank == Fill(bank0, fs, trace + local)
    {
      ghost var whole := ProbeRoots(bank0, fs, roots, filename);
      templ := Blank;
      local := [];
      var j := |roots|;
      ProbeFromBelow(bank0, fs, roots, filename, j, local);
      assert local + whole.trace == whole.trace;
      assert trace + local == trace;
      while j > 0
        invariant 0 <= j <= |roots|
        invariant Valid() && paths == old(paths) && cache == old(cache)
        invariant old(decoded) <= decoded
        invariant templ.IsEmpty()
        invariant bank == Fill(bank0, fs, trace + local)
        invariant whole == ProbeFrom(bank0, fs, roots, filename, j, local)
      {
        var path := Join(roots[j - 1], filename);
        ghost var before := bank;
        templ := LoadSingleImage(path, fs);
        ProbeLoopStep(bank0, fs, roots, filename, j, trace, local, whole, before, bank, templ);
        local := local + [path];
        j := j - 1;
        if !templ.IsEmpty() {
          break;
        }
      }
    }

    /** The image at `path`, from the bank or decoded and banked (load_single_image). */
    method LoadSingleImage(path: Path, fs: Disk) returns (image: Image)
      requires Valid()
      modifies this
      ensures Valid()
      ensures paths == old(paths) && cache == old(cache)
      ensures image == Resolve(old(bank), fs, path) && bank == Store(old(bank), fs, path)
      ensures path in old(bank) ==>
        image == old(bank)[path] && bank == old(bank) && decoded == old(decoded)
      ensures path !in old(bank) && fs.present(path) ==>
        image == fs.decode(path) && bank == old(bank)[path := image] && decoded == old(decoded) + [path]
      ensures path !in old(bank) && !fs.present(path) ==>
        image == Blank && bank == old(bank) && decoded == old(decoded)
    {
      if path in bank {
        return bank[path];
      } else if fs.present(path) {
        image := fs.decode(path);
        BankGrowthKeepsCoherent(State(), strict, bank[path := image]);
        bank := bank[path := image];
        decoded := decoded + [path];
        return;
      }
      return Blank;
    }
  }
}
