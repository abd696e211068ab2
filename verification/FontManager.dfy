/** The fonts loaded from the card, as one manager owns them and the renderer knows them. */
module FontManager {
  import opened Bytes
  import opened Options
  import FlashFormat

  /** What a registered font can draw. */
  datatype Face = Face(letters: set<nat>)

  datatype FontFile = FontFile(pointSize: byte, style: nat, contentHash: nat, face: Face)

  datatype Family = Family(name: seq<byte>, vector: bool, files: seq<FontFile>)

  datatype LoadedFont = LoadedFont(fontId: int, size: byte)

  /** The first installed file of exactly this size in the regular style. */
  function FindFile(files: seq<FontFile>, size: byte): (f: Option<FontFile>)
    ensures f.Some? ==> f.value in files && f.value.pointSize == size && f.value.style == 0
    ensures f.None? ==> forall g :: g in files ==> g.pointSize != size || g.style != 0
  {
    if files == [] then None
    else if files[0].pointSize == size && files[0].style == 0 then Some(files[0])
    else FindFile(files[1..], size)
  }

  function Delta(a: byte, b: byte): nat { if a > b then a - b else b - a }

  /** Whether a file is closer to the wanted size than another; ties go to the smaller size. */
  predicate Closer(f: FontFile, g: FontFile, size: byte)
  {
    Delta(f.pointSize, size) < Delta(g.pointSize, size) ||
    (Delta(f.pointSize, size) == Delta(g.pointSize, size) && f.pointSize < g.pointSize)
  }

  /** f is as far from the wanted size as best or farther, and at the same distance not smaller. */
  predicate NoCloser(f: FontFile, best: FontFile, size: byte)
  {
    var d := if best.pointSize < size then size as int - best.pointSize else best.pointSize as int - size;
    var e := if f.pointSize < size then size as int - f.pointSize else f.pointSize as int - size;
    d < e || (d == e && best.pointSize <= f.pointSize)
  }

  method FindNearestSize(files: seq<FontFile>, size: byte) returns (best: Option<FontFile>)
    ensures best.None? <==> forall f :: f in files ==> f.style != 0
    ensures best.Some? ==> best.value in files && best.value.style == 0 &&
                           forall f :: f in files && f.style == 0 ==> !Closer(f, best.value, size)
    ensures best.Some? ==> forall f :: f in files && f.style == 0 ==> NoCloser(f, best.value, size)
  {
    best := None;
    for i := 0 to |files|
      invariant best.None? <==> forall f :: f in files[..i] ==> f.style != 0
      invariant best.Some? ==> best.value in files && best.value.style == 0 &&
                               forall f :: f in files[..i] && f.style == 0 ==> !Closer(f, best.value, size)
    {
      assert files[..i + 1] == files[..i] + [files[i]];
      if files[i].style == 0 && (best.None? || Closer(files[i], best.value, size)) {
        best := Some(files[i]);
      }
    }
    assert files[..|files|] == files;
  }

  /** A 32-bit value read as a signed font id; 0 is reserved for "not found". */
  function FontIdOf(hash: nat): (id: int)
    requires hash < FlashFormat.U32
    ensures id != 0
  {
    if hash == 0 then 1 else if hash < 0x8000_0000 then hash else hash - FlashFormat.U32
  }

  /** The id is the hash modulo 2^32, from -2^31 to 2^31 - 1, but never 0. */
  lemma FontIdIs(hash: nat)
    requires hash < 0x1_0000_0000
    ensures -0x8000_0000 <= FontIdOf(hash) < 0x8000_0000
    ensures hash != 0 ==> FontIdOf(hash) == hash || FontIdOf(hash) == hash - 0x1_0000_0000
    ensures hash == 0 ==> FontIdOf(hash) == 1
  {
  }

  function ComputeFontId(contentHash: nat, name: seq<byte>, size: byte): (id: int)
    requires contentHash < FlashFormat.U32
    ensures id != 0
  {
    FontIdOf(FlashFormat.Fnv1a(contentHash, name + [size]))
  }

  function LoadedIds(loaded: seq<LoadedFont>): set<int> { set f | f in loaded :: f.fontId }

  predicate Distinct(loaded: seq<LoadedFont>)
  {
    forall i, j :: 0 <= i < j < |loaded| ==> loaded[i].fontId != loaded[j].fontId
  }

  function DropTargets(fallbacks: map<int, int>, ids: set<int>): map<int, int>
  {
    map u | u in fallbacks && fallbacks[u] !in ids :: fallbacks[u]
  }

  class Renderer {
    var fontMap: map<int, Face>
    /** UI font id to the font that draws what it lacks. */
    var fallbacks: map<int, int>

    constructor (builtins: map<int, Face>)
      ensures fontMap == builtins && fallbacks == map[]
    {
      fontMap, fallbacks := builtins, map[];
    }

    method RemoveFont(id: int)
      modifies this`fontMap
      ensures fontMap == old(fontMap) - {id}
    {
      fontMap := fontMap - {id};
    }

    method SetFallbackFont(primary: int, fallback: int)
      modifies this`fallbacks
      ensures fallbacks == old(fallbacks)[primary := fallback]
    {
      fallbacks := fallbacks[primary := fallback];
    }

    function GetFallbackFont(primary: int): int
      reads this
    {
      if primary in fallbacks then fallbacks[primary] else 0
    }

    method RemoveFallbacksTo(id: int)
      modifies this`fallbacks
      ensures fallbacks == DropTargets(old(fallbacks), {id})
    {
      fallbacks := map u | u in fallbacks && fallbacks[u] != id :: fallbacks[u];
    }
  }

  class Manager {
    /** The reader family; a manager that only loads UI sizes never has one. */
    var loadedFamilyName: seq<byte>
    var loadedPointSize: byte
    var loaded: seq<LoadedFont>
    ghost var faults: nat

    constructor ()
      ensures loaded == [] && loadedFamilyName == []
    {
      loadedFamilyName, loadedPointSize, loaded, faults := [], 0, [], 0;
    }

    /** Loads and registers one file; 0 when that fails or the id is taken. */
    method LoadFile(family: Family, file: FontFile, renderer: Renderer, fontIdOverride: int) returns (id: int)
      requires file.contentHash < FlashFormat.U32
      modifies this`loaded, this`faults, renderer`fontMap
      ensures id == 0 ==> loaded == old(loaded) && renderer.fontMap == old(renderer.fontMap)
      ensures id != 0 ==> id !in old(renderer.fontMap) && renderer.fontMap == old(renderer.fontMap)[id := file.face] &&
                          loaded == old(loaded) + [LoadedFont(id, file.pointSize)] &&
                          id == IdFor(family, file, fontIdOverride)
      ensures old(faults) <= faults
      ensures faults == old(faults) ==> (id == 0 <==> IdFor(family, file, fontIdOverride) in old(renderer.fontMap))
    {
      var fails: bool := *;
      if fails {
        faults := faults + 1;
        return 0;
      }
      var fontId := IdFor(family, file, fontIdOverride);
      if fontId in renderer.fontMap {
        return 0;
      }
      loaded := loaded + [LoadedFont(fontId, file.pointSize)];
      renderer.fontMap := renderer.fontMap[fontId := file.face];
      id := fontId;
    }

    static function IdFor(family: Family, file: FontFile, fontIdOverride: int): (id: int)
      requires file.contentHash < FlashFormat.U32
      ensures id != 0
    {
      if fontIdOverride != 0 then fontIdOverride else ComputeFontId(file.contentHash, family.name, file.pointSize)
    }

    /** The id loaded at a size, 0 for the size of the reader font. */
    function GetFontId(familyName: seq<byte>, pointSize: byte): int
      reads this
    {
      if familyName != loadedFamilyName || loaded == [] then 0
      else if pointSize == 0 then loaded[0].fontId
      else IdAtSize(loaded, pointSize)
    }

    static function IdAtSize(fonts: seq<LoadedFont>, size: byte): (id: int)
      ensures id == 0 || id in LoadedIds(fonts)
    {
      if fonts == [] then 0
      else if fonts[0].size == size then
        assert fonts[0] in fonts;
        fonts[0].fontId
      else
        InTail(fonts);
        IdAtSize(fonts[1..], size)
    }

    static lemma InTail(fonts: seq<LoadedFont>)
      requires fonts != []
      ensures LoadedIds(fonts[1..]) <= LoadedIds(fonts)
    {
      forall id | id in LoadedIds(fonts[1..]) ensures id in LoadedIds(fonts) {
        var f :| f in fonts[1..] && f.fontId == id;
        assert f in fonts;
      }
    }

    method LoadFamilyExtraSize(family: Family, renderer: Renderer, pointSize: byte, fontId: int) returns (id: int)
      requires forall f :: f in family.files ==> f.contentHash < FlashFormat.U32
      modifies this`loaded, this`faults, renderer`fontMap
      ensures (loaded == old(loaded) && renderer.fontMap == old(renderer.fontMap) &&
               (id == 0 || id == old(GetFontId(family.name, pointSize)))) ||
              (FindFile(family.files, pointSize).Some? &&
               var file := FindFile(family.files, pointSize).value;
               id == IdFor(family, file, fontId) && id !in old(renderer.fontMap) &&
               renderer.fontMap == old(renderer.fontMap)[id := file.face] &&
               loaded == old(loaded) + [LoadedFont(id, pointSize)])
      ensures old(faults) <= faults
      ensures FindFile(family.files, pointSize).None? ==> id == 0
      ensures FindFile(family.files, pointSize).Some? && old(GetFontId(family.name, pointSize)) != 0 ==>
                id == old(GetFontId(family.name, pointSize)) && loaded == old(loaded)
      ensures faults == old(faults) && FindFile(family.files, pointSize).Some? &&
              old(GetFontId(family.name, pointSize)) == 0 ==>
                (id == 0 <==> IdFor(family, FindFile(family.files, pointSize).value, fontId) in old(renderer.fontMap))
    {
      var file := FindFile(family.files, pointSize);
      if file.None? {
        return 0;
      }
      var loadedId := GetFontId(family.name, pointSize);
      if loadedId != 0 {
        return loadedId;
      }
      id := LoadFile(family, file.value, renderer, fontId);
    }

    method LoadFamilyVariant(family: Family, renderer: Renderer, pointSize: byte, fontId: int) returns (ok: bool)
      requires forall f :: f in family.files ==> f.contentHash < FlashFormat.U32
      requires fontId != 0
      modifies this`loaded, this`faults, renderer`fontMap
      ensures !ok ==> loaded == old(loaded) && renderer.fontMap == old(renderer.fontMap)
      ensures ok ==> FindFile(family.files, pointSize).Some? && fontId !in old(renderer.fontMap) &&
                     renderer.fontMap ==
                         old(renderer.fontMap)[fontId := FindFile(family.files, pointSize).value.face] &&
                     loaded == old(loaded) + [LoadedFont(fontId, pointSize)]
      ensures old(faults) <= faults
      ensures faults == old(faults) ==>
                (ok <==> FindFile(family.files, pointSize).Some? && fontId !in old(renderer.fontMap))
    {
      var file := FindFile(family.files, pointSize);
      if file.None? {
        return false;
      }
      var id := LoadFile(family, file.value, renderer, fontId);
      ok := id != 0;
    }

    /** Unloads one font, if it is this manager's. */
    method UnloadFont(renderer: Renderer, id: int)
      requires Distinct(loaded)
      modifies this`loaded, renderer`fontMap
      ensures id !in LoadedIds(old(loaded)) ==> loaded == old(loaded) && renderer.fontMap == old(renderer.fontMap)
      ensures id in LoadedIds(old(loaded)) ==> renderer.fontMap == old(renderer.fontMap) - {id}
      ensures Distinct(loaded) && LoadedIds(loaded) == LoadedIds(old(loaded)) - {id}
      ensures old(loaded) != [] && old(loaded)[0].fontId != id ==> loaded != [] && loaded[0] == old(loaded)[0]
    {
      for i := 0 to |loaded|
        invariant loaded == old(loaded) && renderer.fontMap == old(renderer.fontMap)
        invariant forall k :: 0 <= k < i ==> loaded[k].fontId != id
      {
        if loaded[i].fontId == id {
          assert loaded[i] in loaded;
          RemovedIds(loaded, i);
          renderer.RemoveFont(id);
          loaded := loaded[..i] + loaded[i + 1..];
          return;
        }
      }
    }

    static lemma RemovedIds(fonts: seq<LoadedFont>, i: nat)
      requires i < |fonts| && Distinct(fonts)
      ensures Distinct(fonts[..i] + fonts[i + 1..])
      ensures LoadedIds(fonts[..i] + fonts[i + 1..]) == LoadedIds(fonts) - {fonts[i].fontId}
    {
      var rest := fonts[..i] + fonts[i + 1..];
      forall k | 0 <= k < |rest| ensures rest[k] == fonts[if k < i then k else k + 1] {
      }
      forall id ensures id in LoadedIds(rest) <==> id in LoadedIds(fonts) - {fonts[i].fontId} {
        LoadedAt(fonts, id);
        LoadedAt(rest, id);
        if id in LoadedIds(fonts) - {fonts[i].fontId} {
          var k :| 0 <= k < |fonts| && fonts[k].fontId == id;
          assert rest[if k < i then k else k - 1].fontId == id;
        }
      }
    }

    static lemma LoadedAt(fonts: seq<LoadedFont>, id: int)
      ensures id in LoadedIds(fonts) <==> exists k :: 0 <= k < |fonts| && fonts[k].fontId == id
    {
      if id in LoadedIds(fonts) {
        var f :| f in fonts && f.fontId == id;
        var k :| 0 <= k < |fonts| && fonts[k] == f;
        assert fonts[k].fontId == id;
      }
    }

    /** Unloads every font of this manager, and drops the UI fallbacks that point at them. */
    method UnloadAll(renderer: Renderer)
      modifies this`loaded, this`loadedFamilyName, this`loadedPointSize, renderer
      ensures loaded == [] && loadedFamilyName == [] && loadedPointSize == 0
      ensures renderer.fontMap == old(renderer.fontMap) - LoadedIds(old(loaded))
      ensures renderer.fallbacks == DropTargets(old(renderer.fallbacks), LoadedIds(old(loaded)))
    {
      for i := 0 to |loaded|
        invariant loaded == old(loaded)
        invariant renderer.fontMap == old(renderer.fontMap) - LoadedIds(loaded[..i])
        invariant renderer.fallbacks == DropTargets(old(renderer.fallbacks), LoadedIds(loaded[..i]))
      {
        assert loaded[..i + 1] == loaded[..i] + [loaded[i]];
        assert LoadedIds(loaded[..i + 1]) == LoadedIds(loaded[..i]) + {loaded[i].fontId};
        renderer.RemoveFallbacksTo(loaded[i].fontId);
        renderer.RemoveFont(loaded[i].fontId);
      }
      assert loaded[..|loaded|] == loaded;
      loaded, loadedFamilyName, loadedPointSize := [], [], 0;
    }

    /** Loads a family at the installed size nearest to the wanted one, in place of the family loaded before. */
    method LoadFamily(family: Family, renderer: Renderer, pointSize: byte) returns (ok: bool)
      requires forall f :: f in family.files ==> f.contentHash < FlashFormat.U32
      requires loadedFamilyName == [] ==> loaded == []
      modifies this, renderer
      ensures var kept := old(renderer.fontMap) - LoadedIds(old(loaded));
              renderer.fallbacks == DropTargets(old(renderer.fallbacks), LoadedIds(old(loaded))) &&
              if ok then
                |loaded| == 1 && loadedFamilyName == family.name && loaded[0].size == loadedPointSize &&
                loaded[0].fontId != 0 && loaded[0].fontId !in kept &&
                exists f :: f in family.files && f.style == 0 && f.pointSize == loadedPointSize &&
                            renderer.fontMap == kept[loaded[0].fontId := f.face] &&
                            forall g :: g in family.files && g.style == 0 ==> !Closer(g, f, pointSize)
              else loaded == [] && loadedFamilyName == [] && renderer.fontMap == kept
      ensures old(faults) <= faults
      ensures (faults == old(faults) && (exists f :: f in family.files && f.style == 0) &&
               IdsFree(family, old(renderer.fontMap) - LoadedIds(old(loaded)))) ==> ok
    {
      hide LoadedIds;
      if loadedFamilyName != [] {
        UnloadAll(renderer);
      } else {
        NothingDropped(renderer.fontMap, renderer.fallbacks);
      }
      var selected := FindNearestSize(family.files, pointSize);
      if selected.None? {
        return false;
      }
      var id := LoadFile(family, selected.value, renderer, 0);
      if id == 0 {
        return false;
      }
      loadedFamilyName, loadedPointSize := family.name, selected.value.pointSize;
      ok := true;
    }

    /** No regular file of the family would be registered under an id that is taken. */
    static predicate IdsFree(family: Family, taken: map<int, Face>)
      requires forall f :: f in family.files ==> f.contentHash < FlashFormat.U32
    {
      forall f :: f in family.files && f.style == 0 ==> ComputeFontId(f.contentHash, family.name, f.pointSize) !in taken
    }

    static lemma NothingDropped(fontMap: map<int, Face>, fallbacks: map<int, int>)
      ensures fontMap - LoadedIds([]) == fontMap && DropTargets(fallbacks, LoadedIds([])) == fallbacks
    {
    }
  }
}
