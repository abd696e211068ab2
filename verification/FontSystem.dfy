/**
 * The card fonts as the reader and the UI use them: sized variants of the reader font, the UI sizes that
 * fill in for the built-in fonts, and the choice of a UI language that can be drawn.
 */
module FontSystem {
  import opened Bytes
  import opened Options
  import opened FontManager
  import FontLru
  import FlashFormat

  const EN: nat := 0
  const UI_FONT_IDS: seq<int> := [-1769521860, 1322569422, 1831230762]
  const UI_SIZES: seq<byte> := [8, 10, 12]

  function UiIds(): set<int> { {-1769521860, 1322569422, 1831230762} }

  lemma UiIdsListed(i: nat)
    requires i < 3
    ensures UI_FONT_IDS[i] in UiIds() && UI_FONT_IDS[i] != 0
  {
  }

  // ---- What the fonts can draw ----

  /** Arabic letters reach the font as presentation forms, so their base letters need not be in it. */
  predicate ShapedBeforeDrawing(cp: nat) { 0x0600 <= cp <= 0x06FF }

  predicate DrawsLetter(primary: Face, fallback: Option<Face>, cp: nat)
  {
    ShapedBeforeDrawing(cp) || cp in primary.letters || (fallback.Some? && cp in fallback.value.letters)
  }

  predicate Draws(primary: Face, fallback: Option<Face>, letters: seq<nat>)
  {
    forall cp :: cp in letters ==> DrawsLetter(primary, fallback, cp)
  }

  /** The font standing in for UI size i. */
  function Fallback(fontMap: map<int, Face>, fallbacks: map<int, int>, i: nat): Option<Face>
    requires i < 3
  {
    if UI_FONT_IDS[i] in fallbacks && fallbacks[UI_FONT_IDS[i]] in fontMap then Some(fontMap[fallbacks[UI_FONT_IDS[i]]])
    else None
  }

  predicate UiSizeDraws(fontMap: map<int, Face>, fallbacks: map<int, int>, letters: seq<nat>, builtinOnly: bool, i: nat)
    requires i < 3
  {
    UI_FONT_IDS[i] in fontMap &&
    Draws(fontMap[UI_FONT_IDS[i]], if builtinOnly then None else Fallback(fontMap, fallbacks, i), letters)
  }

  /** Every UI size draws every letter. */
  predicate UiDraws(fontMap: map<int, Face>, fallbacks: map<int, int>, letters: seq<nat>, builtinOnly: bool)
  {
    forall i :: 0 <= i < 3 ==> UiSizeDraws(fontMap, fallbacks, letters, builtinOnly, i)
  }

  method DrawsLetters(primary: Face, fallback: Option<Face>, letters: seq<nat>) returns (ok: bool)
    ensures ok == Draws(primary, fallback, letters)
  {
    for k := 0 to |letters|
      invariant forall j :: 0 <= j < k ==> DrawsLetter(primary, fallback, letters[j])
    {
      var cp := letters[k];
      if !(ShapedBeforeDrawing(cp) || cp in primary.letters) {
        if fallback.None? || cp !in fallback.value.letters {
          assert cp in letters && !DrawsLetter(primary, fallback, cp);
          return false;
        }
      }
    }
    ok := true;
  }

  /**
   * Every letter but the Arabic ones, which are shaped before they are drawn, is in each of the three built-in UI
   * fonts or in the registered font that fills in for it.
   */
  ghost predicate EveryLetterDrawn(fontMap: map<int, Face>, fallbacks: map<int, int>, letters: seq<nat>)
  {
    forall id, cp :: (id == -1769521860 || id == 1322569422 || id == 1831230762) && cp in letters ==>
      id in fontMap &&
      (0x0600 <= cp <= 0x06FF || cp in fontMap[id].letters ||
       (id in fallbacks && fallbacks[id] in fontMap && cp in fontMap[fallbacks[id]].letters))
  }

  lemma UiDrawsLetters(fontMap: map<int, Face>, fallbacks: map<int, int>, letters: seq<nat>)
    requires UiIds() <= fontMap.Keys
    ensures UiDraws(fontMap, fallbacks, letters, false) <==> EveryLetterDrawn(fontMap, fallbacks, letters)
  {
    if EveryLetterDrawn(fontMap, fallbacks, letters) {
      forall i | 0 <= i < 3 ensures UiSizeDraws(fontMap, fallbacks, letters, false, i) {
        forall cp | cp in letters
          ensures DrawsLetter(fontMap[UI_FONT_IDS[i]], Fallback(fontMap, fallbacks, i), cp) {
          var id := UI_FONT_IDS[i];
          assert id == -1769521860 || id == 1322569422 || id == 1831230762;
        }
      }
    }
    if UiDraws(fontMap, fallbacks, letters, false) {
      forall id, cp | (id == -1769521860 || id == 1322569422 || id == 1831230762) && cp in letters
        ensures 0x0600 <= cp <= 0x06FF || cp in fontMap[id].letters ||
                (id in fallbacks && fallbacks[id] in fontMap && cp in fontMap[fallbacks[id]].letters) {
        var i := if id == -1769521860 then 0 else if id == 1322569422 then 1 else 2;
        assert UiSizeDraws(fontMap, fallbacks, letters, false, i);
        assert DrawsLetter(fontMap[id], Fallback(fontMap, fallbacks, i), cp);
      }
    }
  }

  // ---- What every operation keeps ----

  /** The two managers own different registered fonts, and no fallback names a font that is not registered. */
  predicate Consistent(fontMap: map<int, Face>, fallbacks: map<int, int>, reader: seq<LoadedFont>, ui: seq<LoadedFont>)
  {
    Distinct(reader) && Distinct(ui) && LoadedIds(reader) <= fontMap.Keys && LoadedIds(ui) <= fontMap.Keys &&
    LoadedIds(reader) !! LoadedIds(ui) && UiIds() <= fontMap.Keys && UiIds() !! LoadedIds(reader) &&
    UiIds() !! LoadedIds(ui) && 0 !in fontMap && NoDangling(fontMap, fallbacks)
  }

  predicate NoDangling(fontMap: map<int, Face>, fallbacks: map<int, int>)
  {
    forall u :: u in fallbacks ==> fallbacks[u] in fontMap
  }

  /** The variants are reader-manager fonts, at most the cap, and neither the reader font nor a UI fallback. */
  predicate VariantsOk(vs: seq<FontLru.Variant>, reader: seq<LoadedFont>, fallbacks: map<int, int>)
  {
    FontLru.Distinct(vs) && |vs| <= FontLru.MAX_VARIANTS && FontLru.Ids(vs) <= LoadedIds(reader) &&
    (reader == [] ==> vs == []) && (reader != [] ==> reader[0].fontId !in FontLru.Ids(vs)) &&
    forall u :: u in fallbacks ==> fallbacks[u] !in FontLru.Ids(vs)
  }

  lemma NoIds()
    ensures LoadedIds([]) == {}
  {
  }

  lemma AppendedIds(fonts: seq<LoadedFont>, f: LoadedFont)
    requires Distinct(fonts) && f.fontId !in LoadedIds(fonts)
    ensures Distinct(fonts + [f]) && LoadedIds(fonts + [f]) == LoadedIds(fonts) + {f.fontId}
  {
    forall k | 0 <= k < |fonts| ensures fonts[k].fontId in LoadedIds(fonts) {
      assert fonts[k] in fonts;
    }
    forall id ensures id in LoadedIds(fonts + [f]) <==> id in LoadedIds(fonts) + {f.fontId} {
      Manager.LoadedAt(fonts, id);
      Manager.LoadedAt(fonts + [f], id);
      if id in LoadedIds(fonts) {
        var k :| 0 <= k < |fonts| && fonts[k].fontId == id;
        assert (fonts + [f])[k].fontId == id;
      }
      assert (fonts + [f])[|fonts|] == f;
    }
  }

  lemma ReaderLoads(fontMap: map<int, Face>, fallbacks: map<int, int>, reader: seq<LoadedFont>, ui: seq<LoadedFont>,
                    f: LoadedFont, face: Face)
    requires Consistent(fontMap, fallbacks, reader, ui) && f.fontId !in fontMap && f.fontId != 0
    ensures Consistent(fontMap[f.fontId := face], fallbacks, reader + [f], ui)
  {
    hide LoadedIds, UiIds;
    AppendedIds(reader, f);
  }

  lemma UiLoads(fontMap: map<int, Face>, fallbacks: map<int, int>, reader: seq<LoadedFont>, ui: seq<LoadedFont>,
                f: LoadedFont, face: Face)
    requires Consistent(fontMap, fallbacks, reader, ui) && f.fontId !in fontMap && f.fontId != 0
    ensures Consistent(fontMap[f.fontId := face], fallbacks, reader, ui + [f])
  {
    hide LoadedIds, UiIds;
    AppendedIds(ui, f);
  }

  lemma ReaderDrops(fontMap: map<int, Face>, fallbacks: map<int, int>, reader: seq<LoadedFont>, ui: seq<LoadedFont>,
                    id: int, rest: seq<LoadedFont>)
    requires Consistent(fontMap, fallbacks, reader, ui) && Distinct(rest) && LoadedIds(rest) == LoadedIds(reader) - {id}
    requires id in LoadedIds(reader) && forall u :: u in fallbacks ==> fallbacks[u] != id
    ensures Consistent(fontMap - {id}, fallbacks, rest, ui)
  {
    hide LoadedIds, UiIds;
  }

  lemma ReaderUnloads(fontMap: map<int, Face>, fallbacks: map<int, int>, reader: seq<LoadedFont>, ui: seq<LoadedFont>)
    requires Consistent(fontMap, fallbacks, reader, ui)
    ensures Consistent(fontMap - LoadedIds(reader), DropTargets(fallbacks, LoadedIds(reader)), [], ui)
  {
    hide UiIds;
  }

  lemma UiUnloads(fontMap: map<int, Face>, fallbacks: map<int, int>, reader: seq<LoadedFont>, ui: seq<LoadedFont>)
    requires Consistent(fontMap, fallbacks, reader, ui)
    ensures Consistent(fontMap - LoadedIds(ui), DropTargets(fallbacks, LoadedIds(ui)), reader, [])
  {
    hide UiIds;
  }

  lemma FallbackSet(fontMap: map<int, Face>, fallbacks: map<int, int>, reader: seq<LoadedFont>, ui: seq<LoadedFont>,
                    primary: int, id: int)
    requires Consistent(fontMap, fallbacks, reader, ui) && id in fontMap
    ensures Consistent(fontMap, fallbacks[primary := id], reader, ui)
  {
    hide LoadedIds, UiIds;
  }

  lemma EvictionKeeps(l: FontLru.Lru, reader: seq<LoadedFont>, rest: seq<LoadedFont>, fallbacks: map<int, int>)
    requires VariantsOk(l.variants, reader, fallbacks) && |l.variants| == FontLru.MAX_VARIANTS
    requires var id := l.variants[FontLru.Oldest(l.variants)].fontId;
             LoadedIds(rest) == LoadedIds(reader) - {id} &&
             (reader[0].fontId != id ==> rest != [] && rest[0] == reader[0])
    ensures var e := FontLru.Evict(l);
            VariantsOk(e.variants, rest, fallbacks) && e.clock == l.clock && |e.variants| == FontLru.MAX_VARIANTS - 1
    ensures var id := l.variants[FontLru.Oldest(l.variants)].fontId;
            FontLru.Ids(FontLru.Evict(l).variants) == FontLru.Ids(l.variants) - {id} && id in FontLru.Ids(l.variants) &&
            id in LoadedIds(reader) && id != reader[0].fontId && forall u :: u in fallbacks ==> fallbacks[u] != id
  {
    hide FontLru.Oldest, FontLru.Ids, LoadedIds;
    var k := FontLru.Oldest(l.variants);
    FontLru.RemovedIds(l.variants, k);
    FontLru.IdsAt(l.variants, l.variants[k].fontId);
  }

  lemma AdmissionKeeps(l: FontLru.Lru, reader: seq<LoadedFont>, fallbacks: map<int, int>, f: LoadedFont)
    requires VariantsOk(l.variants, reader, fallbacks) && |l.variants| < FontLru.MAX_VARIANTS && reader != []
    requires Distinct(reader) && f.fontId !in LoadedIds(reader) &&
             forall u :: u in fallbacks ==> fallbacks[u] != f.fontId
    ensures VariantsOk(FontLru.Admit(l, f.fontId).variants, reader + [f], fallbacks)
    ensures FontLru.Ids(FontLru.Admit(l, f.fontId).variants) == FontLru.Ids(l.variants) + {f.fontId}
  {
    hide FontLru.Ids, LoadedIds;
    FontLru.AdmittedIds(l, f.fontId);
    AppendedIds(reader, f);
    Manager.LoadedAt(reader, reader[0].fontId);
  }

  lemma TouchKeeps(l: FontLru.Lru, k: nat, reader: seq<LoadedFont>, fallbacks: map<int, int>)
    requires VariantsOk(l.variants, reader, fallbacks) && k < |l.variants|
    ensures VariantsOk(FontLru.Touch(l, k).variants, reader, fallbacks)
    ensures FontLru.Ids(FontLru.Touch(l, k).variants) == FontLru.Ids(l.variants)
  {
    hide FontLru.Ids, LoadedIds;
    FontLru.SameIds(l.variants, FontLru.Touch(l, k).variants);
  }

  // ---- Candidates for the UI language ----

  predicate WellFormed(family: Family)
  {
    family.name != [] && forall f :: f in family.files ==> f.contentHash < FlashFormat.U32
  }

  predicate HasUiSizes(family: Family)
  {
    forall i :: 0 <= i < 3 ==> FindFile(family.files, UI_SIZES[i]).Some?
  }

  function UiFile(family: Family, i: nat): (f: FontFile)
    requires WellFormed(family) && HasUiSizes(family) && i < 3
    ensures f.contentHash < FlashFormat.U32
  {
    FindFile(family.files, UI_SIZES[i]).value
  }

  function UiIdOf(family: Family, i: nat): int
    requires WellFormed(family) && HasUiSizes(family) && i < 3
  {
    ComputeFontId(UiFile(family, i).contentHash, family.name, UiFile(family, i).pointSize)
  }

  /** The family's UI size i can be registered and fills in for the built-in font of that size. */
  predicate SizeServes(fontMap: map<int, Face>, family: Family, letters: seq<nat>, i: nat)
    requires WellFormed(family) && HasUiSizes(family) && i < 3
  {
    UiIdOf(family, i) !in fontMap && (forall j :: 0 <= j < i ==> UiIdOf(family, j) != UiIdOf(family, i)) &&
    UI_FONT_IDS[i] in fontMap && Draws(fontMap[UI_FONT_IDS[i]], Some(UiFile(family, i).face), letters)
  }

  /** The family could draw the language at every UI size. */
  predicate Serves(fontMap: map<int, Face>, family: Family, readerName: seq<byte>, letters: seq<nat>)
    requires WellFormed(family)
  {
    !family.vector && family.name != readerName && HasUiSizes(family) &&
    forall i :: 0 <= i < 3 ==> SizeServes(fontMap, family, letters, i)
  }

  /** One of the family's regular files has this size and the letters that the built-in font lacks. */
  ghost predicate FileHelps(builtin: Face, family: Family, letters: seq<nat>, size: byte)
  {
    exists f :: f in family.files && f.pointSize == size && f.style == 0 &&
                forall cp :: cp in letters ==>
                  0x0600 <= cp <= 0x06FF || cp in builtin.letters || cp in f.face.letters
  }

  /** A family that serves is no vector font and not the reader's, and helps out at 8, 10 and 12 points. */
  lemma ServesAtSizes(fontMap: map<int, Face>, family: Family, readerName: seq<byte>, letters: seq<nat>)
    requires WellFormed(family) && Serves(fontMap, family, readerName, letters)
    ensures !family.vector && family.name != readerName
    ensures -1769521860 in fontMap && FileHelps(fontMap[-1769521860], family, letters, 8)
    ensures 1322569422 in fontMap && FileHelps(fontMap[1322569422], family, letters, 10)
    ensures 1831230762 in fontMap && FileHelps(fontMap[1831230762], family, letters, 12)
  {
    hide FindFile;
    forall i | 0 <= i < 3
      ensures UI_FONT_IDS[i] in fontMap && FileHelps(fontMap[UI_FONT_IDS[i]], family, letters, UI_SIZES[i]) {
      assert SizeServes(fontMap, family, letters, i);
      var f := UiFile(family, i);
      forall cp | cp in letters
        ensures 0x0600 <= cp <= 0x06FF || cp in fontMap[UI_FONT_IDS[i]].letters || cp in f.face.letters {
        assert DrawsLetter(fontMap[UI_FONT_IDS[i]], Some(f.face), cp);
      }
    }
    assert UI_FONT_IDS[0] == -1769521860 && UI_FONT_IDS[1] == 1322569422 && UI_FONT_IDS[2] == 1831230762;
    assert UI_SIZES[0] == 8 && UI_SIZES[1] == 10 && UI_SIZES[2] == 12;
  }

  /** A family whose files help out at the three sizes, each under an id of its own that is free, serves. */
  lemma HelpsAtSizes(fontMap: map<int, Face>, family: Family, readerName: seq<byte>, letters: seq<nat>,
                     f: seq<FontFile>)
    requires WellFormed(family) && !family.vector && family.name != readerName && |f| == 3 && UiIds() <= fontMap.Keys
    requires FindFile(family.files, 8) == Some(f[0]) && FindFile(family.files, 10) == Some(f[1])
    requires FindFile(family.files, 12) == Some(f[2])
    requires forall i :: 0 <= i < 3 ==>
               f[i] in family.files && ComputeFontId(f[i].contentHash, family.name, f[i].pointSize) !in fontMap
    requires forall i, j :: 0 <= i < j < 3 ==>
               ComputeFontId(f[i].contentHash, family.name, f[i].pointSize) !=
               ComputeFontId(f[j].contentHash, family.name, f[j].pointSize)
    requires forall cp :: cp in letters ==>
               (0x0600 <= cp <= 0x06FF || cp in fontMap[-1769521860].letters || cp in f[0].face.letters) &&
               (0x0600 <= cp <= 0x06FF || cp in fontMap[1322569422].letters || cp in f[1].face.letters) &&
               (0x0600 <= cp <= 0x06FF || cp in fontMap[1831230762].letters || cp in f[2].face.letters)
    ensures Serves(fontMap, family, readerName, letters)
  {
    hide FindFile, ComputeFontId;
    assert UI_SIZES[0] == 8 && UI_SIZES[1] == 10 && UI_SIZES[2] == 12;
    assert HasUiSizes(family);
    assert forall i :: 0 <= i < 3 ==> UiFile(family, i) == f[i];
    forall i | 0 <= i < 3 ensures SizeServes(fontMap, family, letters, i) {
      UiIdsListed(i);
      assert Draws(fontMap[UI_FONT_IDS[i]], Some(f[i].face), letters);
    }
  }

  predicate SomeServes(fontMap: map<int, Face>, families: seq<Family>, readerName: seq<byte>, letters: seq<nat>)
    requires forall f :: f in families ==> WellFormed(f)
  {
    exists k :: 0 <= k < |families| && Serves(fontMap, families[k], readerName, letters)
  }

  /** The renderer's fonts with the family's first n UI sizes registered. */
  function WithSizes(fontMap: map<int, Face>, family: Family, n: nat): map<int, Face>
    requires WellFormed(family) && HasUiSizes(family) && n <= 3
  {
    if n == 0 then fontMap else WithSizes(fontMap, family, n - 1)[UiIdOf(family, n - 1) := UiFile(family, n - 1).face]
  }

  lemma {:induction false} WithSizesKeys(fontMap: map<int, Face>, family: Family, n: nat, id: int)
    requires WellFormed(family) && HasUiSizes(family) && n <= 3
    ensures id in WithSizes(fontMap, family, n) <==> id in fontMap || exists j :: 0 <= j < n && UiIdOf(family, j) == id
    ensures id in fontMap && (forall j :: 0 <= j < n ==> UiIdOf(family, j) != id) ==>
              id in WithSizes(fontMap, family, n) && WithSizes(fontMap, family, n)[id] == fontMap[id]
  {
    hide UiIdOf, UiFile;
    if n > 0 {
      WithSizesKeys(fontMap, family, n - 1, id);
    }
  }

  /** Registered sizes with different ids keep their faces. */
  lemma {:induction false} WithSizesFace(fontMap: map<int, Face>, family: Family, n: nat, j: nat)
    requires WellFormed(family) && HasUiSizes(family) && j < n <= 3
    requires forall a, b :: 0 <= a < b < n ==> UiIdOf(family, a) != UiIdOf(family, b)
    ensures UiIdOf(family, j) in WithSizes(fontMap, family, n)
    ensures WithSizes(fontMap, family, n)[UiIdOf(family, j)] == UiFile(family, j).face
  {
    hide UiIdOf, UiFile;
    if j < n - 1 {
      WithSizesFace(fontMap, family, n - 1, j);
    }
  }

  /** What the test of size i sees after the sizes before it were registered. */
  lemma SizeStep(fontMap: map<int, Face>, family: Family, letters: seq<nat>, i: nat)
    requires WellFormed(family) && HasUiSizes(family) && i < 3 && UiIds() <= fontMap.Keys
    requires forall j :: 0 <= j < i ==> SizeServes(fontMap, family, letters, j)
    ensures var m := WithSizes(fontMap, family, i);
            UI_FONT_IDS[i] in m && m[UI_FONT_IDS[i]] == fontMap[UI_FONT_IDS[i]] &&
            (SizeServes(fontMap, family, letters, i) <==>
              UiIdOf(family, i) !in m && Draws(m[UI_FONT_IDS[i]], Some(UiFile(family, i).face), letters))
  {
    hide UiIdOf, UiFile, Draws, WithSizes;
    UiIdsListed(i);
    WithSizesKeys(fontMap, family, i, UI_FONT_IDS[i]);
    WithSizesKeys(fontMap, family, i, UiIdOf(family, i));
  }

  function PointedAt(fallbacks: map<int, int>, ids: seq<int>): map<int, int>
    requires |ids| == 3
  {
    fallbacks[UI_FONT_IDS[0] := ids[0]][UI_FONT_IDS[1] := ids[1]][UI_FONT_IDS[2] := ids[2]]
  }

  lemma PointedAtEach(fallbacks: map<int, int>, ids: seq<int>, i: nat)
    requires |ids| == 3 && i < 3
    ensures UI_FONT_IDS[i] in PointedAt(fallbacks, ids) && PointedAt(fallbacks, ids)[UI_FONT_IDS[i]] == ids[i]
  {
  }

  /** With all three sizes registered and the fallbacks pointed at them, the UI draws the language. */
  lemma ServedDraws(fontMap: map<int, Face>, family: Family, letters: seq<nat>, fallbacks: map<int, int>, ids: seq<int>)
    requires WellFormed(family) && HasUiSizes(family) && UiIds() <= fontMap.Keys && |ids| == 3
    requires forall j :: 0 <= j < 3 ==> SizeServes(fontMap, family, letters, j) && ids[j] == UiIdOf(family, j)
    ensures UiDraws(WithSizes(fontMap, family, 3), PointedAt(fallbacks, ids), letters, false)
  {
    hide UiIdOf, UiFile, Draws, WithSizes, PointedAt;
    forall a, b | 0 <= a < b < 3 ensures UiIdOf(family, a) != UiIdOf(family, b) {
      assert SizeServes(fontMap, family, letters, b);
    }
    forall i | 0 <= i < 3
      ensures UiSizeDraws(WithSizes(fontMap, family, 3), PointedAt(fallbacks, ids), letters, false, i) {
      assert SizeServes(fontMap, family, letters, i);
      PointedAtEach(fallbacks, ids, i);
      WithSizesFace(fontMap, family, 3, i);
      UiIdsListed(i);
      forall j | 0 <= j < 3 ensures UiIdOf(family, j) != UI_FONT_IDS[i] {
        assert SizeServes(fontMap, family, letters, j);
      }
      WithSizesKeys(fontMap, family, 3, UI_FONT_IDS[i]);
    }
  }

  /** A search for a UI family: the fonts registered, the families, the reader family it skipped, the letters. */
  datatype Search = Search(fonts: map<int, Face>, families: seq<Family>, reader: seq<byte>, letters: seq<nat>,
                           clean: bool)

  /** A search in which nothing failed found no family because there was none. */
  predicate InVain(s: Search)
  {
    s.clean ==> (forall f :: f in s.families ==> WellFormed(f)) && !SomeServes(s.fonts, s.families, s.reader, s.letters)
  }

  /** One of the family's UI sizes would have been registered under an id that was taken. */
  predicate IdTaken(fontMap: map<int, Face>, family: Family)
    requires WellFormed(family)
  {
    HasUiSizes(family) && exists i :: 0 <= i < 3 && UiIdOf(family, i) in fontMap
  }

  /** The fonts that neither manager owns, the UI's own among them, draw the same in both. */
  predicate SameBuiltins(a: map<int, Face>, b: map<int, Face>)
  {
    forall id :: id in UiIds() ==> id in a && id in b && a[id] == b[id]
  }

  /** A family that serves now and did not then is the reader's of then, or one of its ids was taken then. */
  lemma ServesSince(before: map<int, Face>, now: map<int, Face>, family: Family, skipped: seq<byte>, reader: seq<byte>,
                    letters: seq<nat>)
    requires WellFormed(family) && SameBuiltins(before, now)
    requires Serves(now, family, reader, letters) && !Serves(before, family, skipped, letters)
    ensures family.name == skipped || IdTaken(before, family)
  {
    hide Draws, UiIdOf, UiFile, UiIds;
    if family.name != skipped {
      var i :| 0 <= i < 3 && !SizeServes(before, family, letters, i);
      assert SizeServes(now, family, letters, i);
      UiIdsListed(i);
      assert UiIdOf(family, i) in before;
    }
  }

  lemma TakenServesNot(fontMap: map<int, Face>, family: Family, reader: seq<byte>, letters: seq<nat>)
    requires WellFormed(family) && IdTaken(fontMap, family)
    ensures !Serves(fontMap, family, reader, letters)
  {
    hide UiIdOf, UiFile, Draws;
    var i :| 0 <= i < 3 && UiIdOf(family, i) in fontMap;
    assert !SizeServes(fontMap, family, letters, i);
  }

  /**
   * After a search in vain, another finds a family exactly when one serves by now that the first skipped as the
   * reader's, or could not register because an id of it was taken.
   */
  lemma SearchAgain(s: Search, now: map<int, Face>, reader: seq<byte>)
    requires s.clean && InVain(s) && SameBuiltins(s.fonts, now)
    ensures SomeServes(now, s.families, reader, s.letters) <==>
            exists k :: 0 <= k < |s.families| && Serves(now, s.families[k], reader, s.letters) &&
                        (s.families[k].name == s.reader || IdTaken(s.fonts, s.families[k]))
  {
    hide Serves, IdTaken, SameBuiltins;
    if SomeServes(now, s.families, reader, s.letters) {
      var k :| 0 <= k < |s.families| && Serves(now, s.families[k], reader, s.letters);
      assert !Serves(s.fonts, s.families[k], s.reader, s.letters);
      ServesSince(s.fonts, now, s.families[k], s.reader, reader, s.letters);
    }
  }

  // ---- Loading the reader family ----

  const FALLBACK_PROBES: seq<nat> :=
    [0x4E00, 0x3042, 0x30A2, 0xAC00, 0x03B1, 0x0430, 0x05D0, 0x0627, 0x0531, 0x10D0, 0x1200, 0x13A0, 0x2D30, 0x0259]

  predicate HasFallbackScript(face: Face) { exists cp :: cp in FALLBACK_PROBES && cp in face.letters }

  lemma Probed(cp: nat)
    ensures cp in FALLBACK_PROBES <==>
              cp == 0x4E00 || cp == 0x3042 || cp == 0x30A2 || cp == 0xAC00 || cp == 0x03B1 || cp == 0x0430 ||
              cp == 0x05D0 || cp == 0x0627 || cp == 0x0531 || cp == 0x10D0 || cp == 0x1200 || cp == 0x13A0 ||
              cp == 0x2D30 || cp == 0x0259
  {
  }

  /** A letter each of Han, the kana, Hangul, Greek, Cyrillic, Hebrew, Arabic and the other scripts that are probed. */
  lemma ScriptsProbed(face: Face)
    ensures HasFallbackScript(face) <==>
              0x4E00 in face.letters || 0x3042 in face.letters || 0x30A2 in face.letters || 0xAC00 in face.letters ||
              0x03B1 in face.letters || 0x0430 in face.letters || 0x05D0 in face.letters || 0x0627 in face.letters ||
              0x0531 in face.letters || 0x10D0 in face.letters || 0x1200 in face.letters || 0x13A0 in face.letters ||
              0x2D30 in face.letters || 0x0259 in face.letters
  {
    forall cp ensures cp in FALLBACK_PROBES <==>
                        cp == 0x4E00 || cp == 0x3042 || cp == 0x30A2 || cp == 0xAC00 || cp == 0x03B1 ||
                        cp == 0x0430 || cp == 0x05D0 || cp == 0x0627 || cp == 0x0531 || cp == 0x10D0 ||
                        cp == 0x1200 || cp == 0x13A0 || cp == 0x2D30 || cp == 0x0259 {
      Probed(cp);
    }
  }

  /** The id of a sized variant, derived from the reader font's id and the size. */
  function VariantFontId(readerId: int, size: byte): (id: int)
    ensures id != 0
  {
    var hash := FlashFormat.Fnv1a(FlashFormat.FNV_OFFSET, LE(readerId % FlashFormat.U32, 4) + [size]);
    FontIdOf(((hash as bv32) ^ 0x56415200) as nat)
  }

  /** The hash of a variant is taken over the four bytes of the reader font's id, low byte first, and the size. */
  lemma VariantHashed(readerId: int, size: byte)
    ensures var low := readerId % 0x1_0000_0000;
            var bytes: seq<byte> :=
              [low % 0x100, low / 0x100 % 0x100, low / 0x1_0000 % 0x100, low / 0x100_0000 % 0x100, size];
            VariantFontId(readerId, size) ==
            FontIdOf(((FlashFormat.Fnv1a(0x811C_9DC5, bytes) as bv32) ^ 0x5641_5200) as nat)
  {
    hide FlashFormat.Fnv1a;
    var low := readerId % 0x1_0000_0000;
    FourLow(low);
    assert LE(low, 4) + [size] ==
           [low % 0x100, low / 0x100 % 0x100, low / 0x1_0000 % 0x100, low / 0x100_0000 % 0x100, size];
  }

  lemma FourLow(v: nat)
    ensures LE(v, 4) == [v % 0x100, v / 0x100 % 0x100, v / 0x1_0000 % 0x100, v / 0x100_0000 % 0x100]
  {
    assert v / 0x1_0000 == v / 0x100 / 0x100 && v / 0x100_0000 == v / 0x1_0000 / 0x100;
    assert LE(v / 0x100_0000, 1) == [v / 0x100_0000 % 0x100];
    assert LE(v / 0x1_0000, 2) == [v / 0x1_0000 % 0x100] + LE(v / 0x100_0000, 1);
    assert LE(v / 0x100, 3) == [v / 0x100 % 0x100] + LE(v / 0x1_0000, 2);
  }

  function FindFamily(families: seq<Family>, name: seq<byte>): (f: Option<Family>)
    ensures f.Some? ==> f.value in families && f.value.name == name
    ensures f.None? ==> forall g :: g in families ==> g.name != name
  {
    if families == [] then None else if families[0].name == name then Some(families[0])
      else FindFamily(families[1..], name)
  }

  class FontSystem {
    const renderer: Renderer
    const manager: Manager
    const uiManager: Manager
    /** Sized variants of the reader font, and the clock of their uses. */
    var variants: FontLru.Lru
    /** The family loaded only for the UI language, with its three font ids. */
    var uiFamily: seq<byte>
    var uiFontIds: seq<int>
    /** The last search for such a family that found none. */
    var failedGeneration: nat
    var failedLanguage: int
    var uiLanguageUnavailable: bool
    var language: nat
    ghost var faults: nat
    /** What the last search in vain looked at. */
    ghost var vain: Search

    constructor (r: Renderer, m: Manager, u: Manager)
      requires UiIds() <= r.fontMap.Keys && 0 !in r.fontMap && r.fallbacks == map[] && m != u
      requires m.loaded == u.loaded == [] && m.loadedFamilyName == u.loadedFamilyName == []
      ensures renderer == r && manager == m && uiManager == u && Valid() && variants == FontLru.EMPTY
      ensures failedLanguage == -1 && faults == 0 && uiFamily == [] && InVain(vain)
    {
      renderer, manager, uiManager := r, m, u;
      variants, uiFamily, uiFontIds := FontLru.EMPTY, [], [0, 0, 0];
      failedGeneration, failedLanguage, uiLanguageUnavailable, language := 0, -1, false, EN;
      faults, vain := 0, Search(map[], [], [], [], false);
    }

    predicate Valid()
      reads this, renderer, manager, uiManager
    {
      manager != uiManager && Consistent(renderer.fontMap, renderer.fallbacks, manager.loaded, uiManager.loaded) &&
      VariantsOk(variants.variants, manager.loaded, renderer.fallbacks) &&
      (manager.loadedFamilyName == [] <==> manager.loaded == []) && uiManager.loadedFamilyName == [] &&
      (uiFamily == [] <==> uiManager.loaded == []) && |uiFontIds| == 3 &&
      (uiFamily != [] ==> forall i :: 0 <= i < 3 ==> uiFontIds[i] in LoadedIds(uiManager.loaded))
    }

    /** The reader-manager fonts that are no variants: the reader font and the UI sizes. They are never evicted. */
    function Resident(): set<int>
      reads this, manager
    {
      LoadedIds(manager.loaded) - FontLru.Ids(variants.variants)
    }

    /** Makes a sized variant of the reader font available, evicting the variant used longest ago if need be. */
    method LoadCpfontVariant(family: Family, pointSize: byte, fontId: int) returns (ok: bool)
      requires Valid() && manager.loaded != [] && fontId != 0
      requires forall f :: f in family.files ==> f.contentHash < FlashFormat.U32
      modifies this`variants, this`faults, manager`loaded, manager`faults, renderer`fontMap
      ensures Valid() && old(manager.loaded) != [] && manager.loaded != [] &&
              manager.loaded[0] == old(manager.loaded)[0]
      ensures ok ==> fontId in renderer.fontMap && fontId in LoadedIds(manager.loaded)
      ensures Resident() == old(Resident())
      ensures ok ==> variants == if fontId in old(Resident()) then old(variants)
              else FontLru.Request(old(variants), fontId)
      ensures !ok ==> variants == old(variants) || variants == FontLru.Evict(old(variants))
      ensures old(faults) <= faults
      ensures faults == old(faults) ==>
                (ok <==> fontId in FontLru.Ids(old(variants).variants) ||
                         fontId == old(manager.GetFontId(family.name, pointSize)) ||
                         (FindFile(family.files, pointSize).Some? && fontId !in old(renderer.fontMap)))
    {
      hide FontLru.Request, FontLru.Touch, FontLru.Admit, FontLru.Evict, FontLru.Oldest, FontLru.Ids, LoadedIds, UiIds,
           FontLru.IndexOf;
      RequestIs(variants, fontId);
      FontLru.IdsOf(variants.variants, fontId);
      ok := UseResident(family, pointSize, fontId);
      if ok {
        return;
      }
      var heapTight: bool := *;
      if heapTight {
        faults := faults + 1;
        return false;
      }
      if |variants.variants| >= FontLru.MAX_VARIANTS {
        EvictOldest();
      } else {
        NothingEvicted(variants);
      }
      ok := AdmitVariant(family, pointSize, fontId);
    }

    static lemma NothingEvicted(l: FontLru.Lru)
      requires |l.variants| < FontLru.MAX_VARIANTS
      ensures FontLru.Evict(l) == l
    {
    }

    static lemma RequestIs(l: FontLru.Lru, id: int)
      ensures var k := FontLru.IndexOf(l.variants, id);
              FontLru.Request(l, id) ==
              if k < |l.variants| then FontLru.Touch(l, k) else FontLru.Admit(FontLru.Evict(l), id)
    {
    }

    /** A variant in the list is used again; a UI size of the same id is used without entering the list. */
    method UseResident(family: Family, pointSize: byte, fontId: int) returns (ok: bool)
      requires Valid() && manager.loaded != [] && fontId != 0
      modifies this`variants
      ensures Valid()
      ensures ok <==> FontLru.IndexOf(old(variants).variants, fontId) < |old(variants).variants| ||
                      manager.GetFontId(family.name, pointSize) == fontId
      ensures ok ==> fontId in renderer.fontMap && fontId in LoadedIds(manager.loaded)
      ensures variants == if fontId in FontLru.Ids(old(variants).variants) then FontLru.Request(old(variants), fontId)
                          else old(variants)
      ensures FontLru.Ids(variants.variants) == FontLru.Ids(old(variants).variants)
    {
      hide FontLru.Touch, FontLru.Oldest, FontLru.Ids, LoadedIds, UiIds, FontLru.Request, FontLru.Evict, FontLru.Admit;
      var vs := variants.variants;
      FontLru.IdsAt(vs, fontId);
      for k := 0 to |vs|
        invariant variants == old(variants) && forall j :: 0 <= j < k ==> vs[j].fontId != fontId
      {
        if vs[k].fontId == fontId {
          TouchKeeps(variants, k, manager.loaded, renderer.fallbacks);
          RequestIs(variants, fontId);
          variants := FontLru.Touch(variants, k);
          return true;
        }
      }
      ok := manager.GetFontId(family.name, pointSize) == fontId;
      if ok {
        LoadedSomewhere(pointSize, family.name);
      }
    }

    lemma LoadedSomewhere(pointSize: byte, name: seq<byte>)
      requires manager.GetFontId(name, pointSize) != 0
      ensures manager.GetFontId(name, pointSize) in LoadedIds(manager.loaded)
    {
      assert manager.loaded[0] in manager.loaded;
    }

    method EvictOldest()
      requires Valid() && manager.loaded != [] && |variants.variants| >= FontLru.MAX_VARIANTS
      modifies this`variants, manager`loaded, renderer`fontMap
      ensures Valid() && manager.loaded != [] && manager.loaded[0] == old(manager.loaded)[0]
      ensures variants == FontLru.Evict(old(variants)) && |variants.variants| < FontLru.MAX_VARIANTS
      ensures FontLru.Ids(variants.variants) <= FontLru.Ids(old(variants).variants) && Resident() == old(Resident())
      ensures forall id :: id !in FontLru.Ids(old(variants).variants) ==>
                (id in renderer.fontMap <==> id in old(renderer.fontMap))
    {
      hide FontLru.Oldest, FontLru.Ids, LoadedIds, UiIds;
      var vs := variants.variants;
      var k := FontLru.Oldest(vs);
      ghost var reader, fontMap := manager.loaded, renderer.fontMap;
      manager.UnloadFont(renderer, vs[k].fontId);
      EvictionKeeps(variants, reader, manager.loaded, renderer.fallbacks);
      ReaderDrops(fontMap, renderer.fallbacks, reader, uiManager.loaded, vs[k].fontId, manager.loaded);
      variants := variants.(variants := vs[..k] + vs[k + 1..]);
    }

    method AdmitVariant(family: Family, pointSize: byte, fontId: int) returns (ok: bool)
      requires Valid() && manager.loaded != [] && |variants.variants| < FontLru.MAX_VARIANTS && fontId != 0
      requires forall f :: f in family.files ==> f.contentHash < FlashFormat.U32
      modifies this`variants, this`faults, manager`loaded, manager`faults, renderer`fontMap
      ensures Valid() && manager.loaded != [] && manager.loaded[0] == old(manager.loaded)[0]
      ensures variants == if ok then FontLru.Admit(old(variants), fontId) else old(variants)
      ensures Resident() == old(Resident()) && (ok ==> fontId !in Resident())
      ensures ok ==> fontId in renderer.fontMap && fontId in LoadedIds(manager.loaded)
      ensures old(faults) <= faults
      ensures faults == old(faults) ==>
                (ok <==> FindFile(family.files, pointSize).Some? && fontId !in old(renderer.fontMap))
    {
      hide FontLru.Oldest, FontLru.Ids, LoadedIds, UiIds, FontLru.Distinct;
      ghost var reader, fontMap, managerFaults := manager.loaded, renderer.fontMap, manager.faults;
      ok := manager.LoadFamilyVariant(family, renderer, pointSize, fontId);
      faults := faults + (manager.faults - managerFaults);
      if !ok {
        return;
      }
      var f := LoadedFont(fontId, pointSize);
      ReaderLoads(fontMap, renderer.fallbacks, reader, uiManager.loaded, f,
                  FindFile(family.files, pointSize).value.face);
      AdmissionKeeps(variants, reader, renderer.fallbacks, f);
      AppendedIds(reader, f);
      var now := FontLru.Tick(variants.clock);
      variants := FontLru.Lru(variants.variants + [FontLru.Variant(fontId, now)], now);
    }

    /** The ids asked for, in order, apart from those that are resident anyway. */
    static function UsesOf(requests: seq<(byte, int)>, resident: set<int>): (ids: seq<int>)
      ensures |ids| <= |requests|
      ensures forall id :: id in ids <==> id !in resident && exists k :: 0 <= k < |requests| && requests[k].1 == id
    {
      if requests == [] then []
      else
        var n := |requests| - 1;
        var id := requests[n].1;
        assert forall k :: 0 <= k < n ==> requests[..n][k] == requests[k];
        UsesOf(requests[..n], resident) + if id in resident then [] else [id]
    }

    static lemma UsesNext(requests: seq<(byte, int)>, k: nat, resident: set<int>)
      requires k < |requests|
      ensures var id := requests[k].1;
              UsesOf(requests[..k + 1], resident) ==
              if id in resident then UsesOf(requests[..k], resident) else UsesOf(requests[..k], resident) + [id]
    {
      assert requests[..k + 1][..k] == requests[..k];
    }

    /**
     * Any run of variant uses that all succeed leaves loaded exactly the five ids, or fewer, that were asked
     * for most recently, not counting uses of a font that is resident as the reader font or a UI size.
     */
    method UseVariants(family: Family, requests: seq<(byte, int)>) returns (ok: bool)
      requires Valid() && manager.loaded != [] && forall r :: r in requests ==> r.1 != 0
      requires forall f :: f in family.files ==> f.contentHash < FlashFormat.U32
      requires variants.variants == [] && variants.clock < FontLru.CLOCK_LIMIT
      modifies this`variants, this`faults, manager`loaded, manager`faults, renderer`fontMap
      ensures Valid() && manager.loaded != [] && manager.loaded[0] == old(manager.loaded)[0]
      ensures Resident() == LoadedIds(old(manager.loaded))
      ensures var uses := UsesOf(requests, LoadedIds(old(manager.loaded)));
              ok && old(variants).clock + |uses| <= FontLru.CLOCK_LIMIT ==>
                |variants.variants| == |FontLru.MostRecent(uses)| &&
                FontLru.Ids(variants.variants) == FontLru.Elements(FontLru.MostRecent(uses)) &&
                LoadedIds(manager.loaded) == LoadedIds(old(manager.loaded)) + FontLru.Elements(FontLru.MostRecent(uses))
    {
      hide FontLru.Oldest, FontLru.Ids, LoadedIds, UiIds, FontLru.Request, FontLru.Evict, FontLru.Admit,
           FontLru.MostRecent,
           FontLru.Elements, Consistent, FontLru.Requests, UsesOf;
      ghost var start, resident := variants.clock, LoadedIds(manager.loaded);
      NothingYet(requests, resident, start);
      assert requests[..0] == [];
      for k := 0 to |requests|
        invariant Valid() && manager.loaded != [] && manager.loaded[0] == old(manager.loaded)[0]
        invariant variants == FontLru.Requests(FontLru.Lru([], start), UsesOf(requests[..k], resident))
        invariant Resident() == resident
      {
        ok := LoadCpfontVariant(family, requests[k].0, requests[k].1);
        if !ok {
          return;
        }
        UsesNext(requests, k, resident);
        FontLru.RequestsNext(FontLru.Lru([], start), UsesOf(requests[..k], resident), requests[k].1);
      }
      ok := true;
      assert requests[..|requests|] == requests;
      ghost var uses := UsesOf(requests, resident);
      if start + |uses| <= FontLru.CLOCK_LIMIT {
        FontLru.HoldsMostRecent(start, uses);
        FaithfulMeans(variants, start, uses);
      }
    }

    static lemma NothingYet(requests: seq<(byte, int)>, resident: set<int>, start: nat)
      ensures UsesOf([], resident) == []
      ensures FontLru.Requests(FontLru.Lru([], start), []) == FontLru.Lru([], start)
      ensures FontLru.Ids([]) == {}
    {
    }

    static lemma FaithfulMeans(l: FontLru.Lru, start: nat, used: seq<int>)
      requires FontLru.Faithful(l, start, used)
      ensures |l.variants| == |FontLru.MostRecent(used)|
      ensures FontLru.Ids(l.variants) == FontLru.Elements(FontLru.MostRecent(used))
    {
    }

    /** Drops the reader family with all its variants. The clock goes on. */
    method UnloadCpfonts()
      requires Valid()
      modifies this`variants, manager`loaded, manager`loadedFamilyName, manager`loadedPointSize, renderer
      ensures Valid() && manager.loaded == [] && variants == FontLru.Lru([], old(variants).clock)
      ensures Builtins() == old(Builtins())
      ensures renderer.fontMap == old(renderer.fontMap) - LoadedIds(old(manager.loaded))
      ensures renderer.fallbacks == DropTargets(old(renderer.fallbacks), LoadedIds(old(manager.loaded)))
    {
      hide LoadedIds, UiIds;
      NoIds();
      ReaderUnloads(renderer.fontMap, renderer.fallbacks, manager.loaded, uiManager.loaded);
      variants := variants.(variants := []);
      manager.UnloadAll(renderer);
    }

    method UnloadUiFamily()
      requires Valid()
      modifies this`uiFamily, this`uiFontIds, uiManager`loaded, uiManager`loadedFamilyName,
               uiManager`loadedPointSize, renderer
      ensures Valid() && uiFamily == [] && Builtins() == old(Builtins())
      ensures renderer.fontMap == old(renderer.fontMap) - LoadedIds(old(uiManager.loaded))
      ensures renderer.fallbacks == DropTargets(old(renderer.fallbacks), LoadedIds(old(uiManager.loaded)))
    {
      hide LoadedIds, UiIds, FontLru.Ids;
      NoIds();
      if uiFamily == [] {
        Manager.NothingDropped(renderer.fontMap, renderer.fallbacks);
        return;
      }
      UiUnloads(renderer.fontMap, renderer.fallbacks, manager.loaded, uiManager.loaded);
      uiManager.UnloadAll(renderer);
      uiFamily := [];
      uiFontIds := [0, 0, 0];
    }

    method CheckUi(letters: seq<nat>, builtinOnly: bool) returns (ok: bool)
      ensures ok == UiDraws(renderer.fontMap, renderer.fallbacks, letters, builtinOnly)
    {
      for i := 0 to 3
        invariant forall j :: 0 <= j < i ==> UiSizeDraws(renderer.fontMap, renderer.fallbacks, letters, builtinOnly, j)
      {
        if UI_FONT_IDS[i] !in renderer.fontMap {
          assert !UiSizeDraws(renderer.fontMap, renderer.fallbacks, letters, builtinOnly, i);
          return false;
        }
        var fallback := if builtinOnly then None else Fallback(renderer.fontMap, renderer.fallbacks, i);
        ok := DrawsLetters(renderer.fontMap[UI_FONT_IDS[i]], fallback, letters);
        if !ok {
          assert !UiSizeDraws(renderer.fontMap, renderer.fallbacks, letters, builtinOnly, i);
          return;
        }
      }
      ok := true;
    }

    /** Loads one UI size of a candidate and says whether it fills in for the built-in font. */
    method LoadUiSize(family: Family, letters: seq<nat>, i: nat) returns (draws: bool)
      requires manager != uiManager && uiManager.loadedFamilyName == [] && |uiFontIds| == 3 && i < 3
      requires Consistent(renderer.fontMap, renderer.fallbacks, manager.loaded, uiManager.loaded)
      requires WellFormed(family) && HasUiSizes(family)
      modifies this`uiFontIds, this`faults, uiManager`loaded, uiManager`faults, renderer`fontMap
      ensures Consistent(renderer.fontMap, renderer.fallbacks, manager.loaded, uiManager.loaded) && |uiFontIds| == 3
      ensures uiFontIds[..i] == old(uiFontIds)[..i]
      ensures draws ==> uiFontIds[i] == UiIdOf(family, i)
      ensures draws ==> UiIdOf(family, i) !in old(renderer.fontMap) && UI_FONT_IDS[i] in old(renderer.fontMap) &&
                        Draws(old(renderer.fontMap)[UI_FONT_IDS[i]], Some(UiFile(family, i).face), letters)
      ensures draws ==> renderer.fontMap == old(renderer.fontMap)[UiIdOf(family, i) := UiFile(family, i).face]
      ensures draws ==> uiManager.loaded == old(uiManager.loaded) + [LoadedFont(UiIdOf(family, i), UI_SIZES[i])]
      ensures renderer.fontMap - LoadedIds(uiManager.loaded) == old(renderer.fontMap) - LoadedIds(old(uiManager.loaded))
      ensures old(faults) <= faults
      ensures faults == old(faults) && !draws ==>
                UiIdOf(family, i) in old(renderer.fontMap) || UI_FONT_IDS[i] !in old(renderer.fontMap) ||
                !Draws(old(renderer.fontMap)[UI_FONT_IDS[i]], Some(UiFile(family, i).face), letters)
    {
      hide LoadedIds, UiIds, Draws, ComputeFontId;
      ghost var fontMap, loaded, uiFaults := renderer.fontMap, uiManager.loaded, uiManager.faults;
      UiIdsListed(i);
      var id := uiManager.LoadFamilyExtraSize(family, renderer, UI_SIZES[i], 0);
      faults := faults + (uiManager.faults - uiFaults);
      uiFontIds := uiFontIds[i := id];
      if id != 0 {
        UiLoads(fontMap, renderer.fallbacks, manager.loaded, loaded, LoadedFont(id, UI_SIZES[i]),
                UiFile(family, i).face);
        AppendedIds(loaded, LoadedFont(id, UI_SIZES[i]));
      }
      if id == 0 || UI_FONT_IDS[i] !in renderer.fontMap || id !in renderer.fontMap {
        return false;
      }
      draws := DrawsLetters(renderer.fontMap[UI_FONT_IDS[i]], Some(renderer.fontMap[id]), letters);
    }

    static predicate Listed(family: Family, loaded: seq<LoadedFont>, n: nat)
      requires WellFormed(family) && HasUiSizes(family) && n <= 3
    {
      |loaded| == n && forall j :: 0 <= j < n ==> loaded[j].fontId == UiIdOf(family, j)
    }

    static lemma ListedIds(family: Family, loaded: seq<LoadedFont>, j: nat)
      requires WellFormed(family) && HasUiSizes(family) && Listed(family, loaded, 3) && j < 3
      ensures UiIdOf(family, j) in LoadedIds(loaded)
    {
      assert loaded[j] in loaded;
    }

    static lemma NoSizes(fontMap: map<int, Face>, family: Family)
      requires WellFormed(family) && HasUiSizes(family)
      ensures WithSizes(fontMap, family, 0) == fontMap
    {
    }

    static lemma OneMoreSize(fontMap: map<int, Face>, family: Family, i: nat)
      requires WellFormed(family) && HasUiSizes(family) && i < 3
      ensures WithSizes(fontMap, family, i + 1) ==
              WithSizes(fontMap, family, i)[UiIdOf(family, i) := UiFile(family, i).face]
    {
    }

    static lemma NoneTargeted(fontMap: map<int, Face>, fallbacks: map<int, int>, ids: set<int>)
      requires NoDangling(fontMap, fallbacks) && ids !! fontMap.Keys
      ensures DropTargets(fallbacks, ids) == fallbacks
    {
      forall u | u in fallbacks ensures fallbacks[u] !in ids {
        assert fallbacks[u] in fontMap.Keys;
      }
      assert DropTargets(fallbacks, ids).Keys == fallbacks.Keys;
    }

    /** Points the fallback of every UI size at the UI family's font of that size. */
    method PointFallbacks()
      requires Valid() && uiFamily != []
      modifies renderer`fallbacks
      ensures Valid() && renderer.fallbacks == PointedAt(old(renderer.fallbacks), uiFontIds)
    {
      hide LoadedIds, UiIds, FontLru.Ids;
      ghost var fallbacks := renderer.fallbacks;
      for i := 0 to 3
        invariant renderer.fallbacks == if i == 0 then fallbacks
                    else if i == 1 then fallbacks[UI_FONT_IDS[0] := uiFontIds[0]]
                    else if i == 2 then fallbacks[UI_FONT_IDS[0] := uiFontIds[0]][UI_FONT_IDS[1] := uiFontIds[1]]
                    else PointedAt(fallbacks, uiFontIds)
        invariant Valid()
      {
        FallbackSet(renderer.fontMap, renderer.fallbacks, manager.loaded, uiManager.loaded, UI_FONT_IDS[i],
                    uiFontIds[i]);
        renderer.SetFallbackFont(UI_FONT_IDS[i], uiFontIds[i]);
      }
    }

    /** Tries one candidate, size by size; a candidate that does not serve leaves nothing behind. */
    method TryFamily(family: Family, letters: seq<nat>) returns (ok: bool)
      requires Valid() && uiFamily == [] && WellFormed(family) && HasUiSizes(family)
      modifies this`uiFontIds, this`uiFamily, this`faults, uiManager, renderer
      ensures Valid()
      ensures ok ==> uiFamily == family.name && UiDraws(renderer.fontMap, renderer.fallbacks, letters, false)
      ensures !ok ==> uiFamily == [] && renderer.fontMap == old(renderer.fontMap) &&
                      renderer.fallbacks == old(renderer.fallbacks)
      ensures renderer.fontMap - LoadedIds(uiManager.loaded) == old(renderer.fontMap)
      ensures old(faults) <= faults
      ensures faults == old(faults) ==>
                (ok <==> forall i :: 0 <= i < 3 ==> SizeServes(old(renderer.fontMap), family, letters, i))
    {
      hide LoadedIds, UiIds, Draws, UiIdOf, UiFile, SizeServes, UiDraws, FontLru.Ids, FontLru.Distinct, WithSizes;
      ghost var fontMap, fallbacks := renderer.fontMap, renderer.fallbacks;
      Manager.NothingDropped(renderer.fontMap, renderer.fallbacks);
      assert WithSizes(fontMap, family, 0) == fontMap by { NoSizes(fontMap, family); }
      var i, drawsAll := 0, true;
      while i < 3 && drawsAll
        invariant i <= 3 && |uiFontIds| == 3 && renderer.fallbacks == fallbacks && uiFamily == []
        invariant Consistent(renderer.fontMap, fallbacks, manager.loaded, uiManager.loaded) &&
                  uiManager.loadedFamilyName == []
        invariant renderer.fontMap - LoadedIds(uiManager.loaded) == fontMap
        invariant drawsAll ==>
                    renderer.fontMap == WithSizes(fontMap, family, i) && Listed(family, uiManager.loaded, i) &&
                    forall j :: 0 <= j < i ==>
                      uiFontIds[j] == UiIdOf(family, j) && SizeServes(fontMap, family, letters, j)
        invariant old(faults) <= faults
        invariant !drawsAll && faults == old(faults) ==>
                    exists j :: 0 <= j < 3 && !SizeServes(fontMap, family, letters, j)
      {
        SizeStep(fontMap, family, letters, i);
        OneMoreSize(fontMap, family, i);
        drawsAll := LoadUiSize(family, letters, i);
        i := i + 1;
      }
      if !drawsAll {
        UiUnloads(renderer.fontMap, renderer.fallbacks, manager.loaded, uiManager.loaded);
        NoneTargeted(fontMap, fallbacks, LoadedIds(uiManager.loaded));
        uiManager.UnloadAll(renderer);
        return false;
      }
      uiFamily := family.name;
      ServedDraws(fontMap, family, letters, fallbacks, uiFontIds);
      forall j | 0 <= j < 3 ensures uiFontIds[j] in LoadedIds(uiManager.loaded) {
        ListedIds(family, uiManager.loaded, j);
      }
      PointFallbacks();
      ok := true;
    }

    /** The first family on the card, other than the reader's, that draws the language at every UI size. */
    method LoadUiFamily(families: seq<Family>, letters: seq<nat>) returns (ok: bool)
      requires Valid() && uiFamily == [] && forall f :: f in families ==> WellFormed(f)
      modifies this`uiFontIds, this`uiFamily, this`faults, uiManager, renderer
      ensures Valid()
      ensures ok ==> uiFamily != [] && UiDraws(renderer.fontMap, renderer.fallbacks, letters, false)
      ensures !ok ==> uiFamily == [] && renderer.fontMap == old(renderer.fontMap) &&
                      renderer.fallbacks == old(renderer.fallbacks)
      ensures renderer.fontMap - LoadedIds(uiManager.loaded) == old(renderer.fontMap)
      ensures old(faults) <= faults
      ensures faults == old(faults) ==>
                (ok <==> SomeServes(old(renderer.fontMap), families, manager.loadedFamilyName, letters))
    {
      hide LoadedIds, UiIds, Draws, SizeServes, UiDraws, FontLru.Ids, FontLru.Distinct, HasUiSizes, Consistent,
           VariantsOk;
      Manager.NothingDropped(renderer.fontMap, renderer.fallbacks);
      for k := 0 to |families|
        invariant Valid() && uiFamily == [] && old(faults) <= faults
        invariant renderer.fontMap == old(renderer.fontMap) && renderer.fallbacks == old(renderer.fallbacks)
        invariant faults == old(faults) ==>
                    forall j :: 0 <= j < k ==> !Serves(renderer.fontMap, families[j], manager.loadedFamilyName, letters)
      {
        var family := families[k];
        if family.vector || family.name == manager.loadedFamilyName || !HasUiSizes(family) {
          continue;
        }
        ok := TryFamily(family, letters);
        if ok {
          return;
        }
      }
      uiFontIds := [0, 0, 0];
      ok := false;
    }

    /** The language is drawn by the fonts as they are, or with the fallbacks pointed back at the UI family. */
    predicate DrawnAsIs(letters: seq<nat>)
      requires Valid()
      reads this, renderer, manager, uiManager
    {
      UiDraws(renderer.fontMap, renderer.fallbacks, letters, true) ||
      UiDraws(renderer.fontMap, renderer.fallbacks, letters, false) ||
      (uiFamily != [] && UiDraws(renderer.fontMap, PointedAt(renderer.fallbacks, uiFontIds), letters, false))
    }

    /** What the language check finds when every load that can succeed does. */
    predicate CanDraw(letters: seq<nat>, families: seq<Family>, memo: bool)
      requires Valid() && forall f :: f in families ==> WellFormed(f)
      reads this, renderer, manager, uiManager
    {
      DrawnAsIs(letters) || (!memo && SomeServes(OtherFonts(), families, manager.loadedFamilyName, letters))
    }

    /**
     * Some family was skipped as the reader's, or had an id that was taken, when the search was made, and serves
     * now.
     */
    ghost predicate MissedThen(families: seq<Family>)
      requires forall f :: f in families ==> WellFormed(f)
      reads this, renderer, manager, uiManager
    {
      exists k :: 0 <= k < |families| && Serves(OtherFonts(), families[k], manager.loadedFamilyName, vain.letters) &&
                  (families[k].name == vain.reader || IdTaken(vain.fonts, families[k]))
    }

    /**
     * With the families and letters of a search in which nothing failed, remembering it gives another outcome than
     * searching again exactly when the fonts do not draw the language and a family missed then would by now.
     */
    lemma MemoWrongExactly()
      requires Valid() && vain.clean && InVain(vain) && SameBuiltins(vain.fonts, OtherFonts())
      ensures CanDraw(vain.letters, vain.families, true) != CanDraw(vain.letters, vain.families, false) <==>
              !DrawnAsIs(vain.letters) && MissedThen(vain.families)
    {
      hide UiDraws, Serves, IdTaken, PointedAt, SameBuiltins;
      SearchAgain(vain, OtherFonts(), manager.loadedFamilyName);
    }

    /** As long as the reader family is the one of the search and no id was taken, remembering it is right. */
    lemma MemoRight()
      requires Valid() && vain.clean && InVain(vain) && SameBuiltins(vain.fonts, OtherFonts())
      requires manager.loadedFamilyName == vain.reader
      requires forall f :: f in vain.families ==> IdTaken(vain.fonts, f) ==> IdTaken(OtherFonts(), f)
      ensures CanDraw(vain.letters, vain.families, true) == CanDraw(vain.letters, vain.families, false)
    {
      hide UiDraws, IdTaken, PointedAt, SameBuiltins;
      MemoWrongExactly();
      if MissedThen(vain.families) {
        var k :| 0 <= k < |vain.families| &&
            Serves(OtherFonts(), vain.families[k], manager.loadedFamilyName, vain.letters) &&
                 (vain.families[k].name == vain.reader || IdTaken(vain.fonts, vain.families[k]));
        assert vain.families[k] in vain.families;
        if IdTaken(OtherFonts(), vain.families[k]) {
          TakenServesNot(OtherFonts(), vain.families[k], manager.loadedFamilyName, vain.letters);
        }
      }
    }

    /** Whether a fallback of some UI size is one of the UI family's fonts. */
    method UiFamilyInUse() returns (used: bool)
      ensures used <==>
                exists i :: 0 <= i < 3 && renderer.GetFallbackFont(UI_FONT_IDS[i]) in LoadedIds(uiManager.loaded)
      ensures Valid() ==>
                (used <==> exists i :: 0 <= i < 3 && UI_FONT_IDS[i] in renderer.fallbacks &&
                                       renderer.fallbacks[UI_FONT_IDS[i]] in LoadedIds(uiManager.loaded))
    {
      for i := 0 to 3
        invariant forall j :: 0 <= j < i ==> renderer.GetFallbackFont(UI_FONT_IDS[j]) !in LoadedIds(uiManager.loaded)
      {
        if renderer.GetFallbackFont(UI_FONT_IDS[i]) in LoadedIds(uiManager.loaded) {
          return true;
        }
      }
      used := false;
    }

    /** The fonts of an unused UI family may go: what the UI draws does not change. */
    static lemma UnusedMayGo(fontMap: map<int, Face>, fallbacks: map<int, int>, ids: set<int>, letters: seq<nat>,
                               builtinOnly: bool)
      requires ids !! UiIds()
      requires !builtinOnly ==> forall i :: 0 <= i < 3 && UI_FONT_IDS[i] in fallbacks ==>
                 fallbacks[UI_FONT_IDS[i]] !in ids
      requires UiDraws(fontMap, fallbacks, letters, builtinOnly)
      ensures UiDraws(fontMap - ids, DropTargets(fallbacks, ids), letters, builtinOnly)
    {
      hide Draws, UiIds;
      forall i | 0 <= i < 3 ensures UiSizeDraws(fontMap - ids, DropTargets(fallbacks, ids), letters, builtinOnly, i) {
        assert UiSizeDraws(fontMap, fallbacks, letters, builtinOnly, i);
        UiIdsListed(i);
      }
    }

    /** Drawn by the built-in fonts alone, drawn with any fallbacks. */
    static lemma BuiltinDrawsAnyway(fontMap: map<int, Face>, fallbacks: map<int, int>, letters: seq<nat>)
      requires UiDraws(fontMap, fallbacks, letters, true)
      ensures UiDraws(fontMap, fallbacks, letters, false)
    {
      forall i | 0 <= i < 3 ensures UiSizeDraws(fontMap, fallbacks, letters, false, i) {
        assert UiSizeDraws(fontMap, fallbacks, letters, true, i);
        forall cp | cp in letters ensures DrawsLetter(fontMap[UI_FONT_IDS[i]], Fallback(fontMap, fallbacks, i), cp) {
          assert DrawsLetter(fontMap[UI_FONT_IDS[i]], None, cp);
        }
      }
    }

    /** The registered fonts that are not the UI family's. */
    function OtherFonts(): map<int, Face>
      reads renderer, uiManager
    {
      renderer.fontMap - LoadedIds(uiManager.loaded)
    }

    /** The fonts that no manager owns: the firmware's. */
    function Builtins(): map<int, Face>
      reads renderer, manager, uiManager
    {
      renderer.fontMap - LoadedIds(manager.loaded) - LoadedIds(uiManager.loaded)
    }

    /** Points the fallbacks back at a UI family loaded before; one that does not serve is unloaded. */
    method ReuseUiFamily(letters: seq<nat>) returns (drawable: bool)
      requires Valid()
      modifies this`uiFontIds, this`uiFamily, uiManager`loaded, uiManager`loadedFamilyName,
               uiManager`loadedPointSize, renderer
      ensures Valid() && (drawable <==> old(uiFamily) != [] && old(UiDraws(renderer.fontMap,
                PointedAt(renderer.fallbacks, uiFontIds), letters, false)))
      ensures drawable ==> uiFamily != [] && UiDraws(renderer.fontMap, renderer.fallbacks, letters, false)
      ensures !drawable ==> uiFamily == []
      ensures old(uiFamily) == [] ==> renderer.fallbacks == old(renderer.fallbacks)
      ensures OtherFonts() == old(OtherFonts())
    {
      hide LoadedIds, UiIds, UiDraws, FontLru.Ids, FontLru.Distinct, Consistent, VariantsOk, PointedAt;
      if uiFamily == [] {
        return false;
      }
      PointFallbacks();
      drawable := CheckUi(letters, false);
      if !drawable {
        UnloadUiFamily();
        NothingLoaded();
      }
    }

    lemma NothingLoaded()
      requires uiManager.loaded == []
      ensures OtherFonts() == renderer.fontMap
    {
      Manager.NothingDropped(renderer.fontMap, renderer.fallbacks);
    }

    /** What is remembered: this search, if there was one and it was in vain, with all that it looked at. */
    ghost predicate Remembers(drawable: bool, fonts: map<int, Face>, families: seq<Family>, generation: nat, lang: nat,
                        letters: seq<nat>, wasGeneration: nat, wasLanguage: int, was: Search, wasFaults: nat)
      reads this, manager
    {
      if drawable || (generation == wasGeneration && lang == wasLanguage) then
        failedGeneration == wasGeneration && failedLanguage == wasLanguage && vain == was
      else
        failedGeneration == generation && failedLanguage == lang &&
        vain == Search(fonts, families, manager.loadedFamilyName, letters, vain.clean) &&
        (faults == wasFaults ==> vain.clean)
    }

    /** Fonts for a language that neither the built-in fonts nor the fallbacks draw. */
    method FindUiFonts(letters: seq<nat>, families: seq<Family>, generation: nat, lang: nat) returns (drawable: bool)
      requires Valid() && forall f :: f in families ==> WellFormed(f)
      modifies this`uiFontIds, this`uiFamily, this`faults, this`failedGeneration, this`failedLanguage,
               this`vain, uiManager,
               renderer
      ensures Valid() && OtherFonts() == old(OtherFonts())
      ensures Remembers(drawable, old(OtherFonts()), families, generation, lang, letters, old(failedGeneration),
                        old(failedLanguage), old(vain), old(faults)) && (old(InVain(vain)) ==> InVain(vain))
      ensures !drawable ==> uiFamily == [] && (old(uiFamily) == [] ==> renderer.fallbacks == old(renderer.fallbacks))
      ensures drawable ==> UiDraws(renderer.fontMap, renderer.fallbacks, letters, false)
      ensures old(faults) <= faults
      ensures faults == old(faults) ==>
                (drawable <==>
                  (old(uiFamily) != [] &&
                   old(UiDraws(renderer.fontMap, PointedAt(renderer.fallbacks, uiFontIds), letters, false))) ||
                  (!(generation == old(failedGeneration) && lang == old(failedLanguage)) &&
                   SomeServes(old(OtherFonts()), families, manager.loadedFamilyName, letters)))
    {
      hide LoadedIds, UiIds, UiDraws, FontLru.Ids, FontLru.Distinct, Consistent, VariantsOk, PointedAt, SomeServes;
      ghost var fonts, before := OtherFonts(), faults;
      drawable := ReuseUiFamily(letters);
      var searchedInVain := generation == failedGeneration && lang == failedLanguage;
      if !drawable && !searchedInVain {
        NothingLoaded();
        drawable := LoadUiFamily(families, letters);
        if !drawable {
          failedGeneration, failedLanguage := generation, lang;
          vain := Search(fonts, families, manager.loadedFamilyName, letters, faults == before);
        }
      }
    }

    /** Makes the fonts for the letters available, if they are not, and drops a UI family that is not needed. */
    method MakeDrawable(letters: seq<nat>, families: seq<Family>, generation: nat, lang: nat) returns (drawable: bool)
      requires Valid() && forall f :: f in families ==> WellFormed(f)
      modifies this`uiFontIds, this`uiFamily, this`faults, this`failedGeneration, this`failedLanguage,
               this`vain, uiManager,
               renderer
      ensures Valid() && OtherFonts() == old(OtherFonts())
      ensures drawable ==> UiDraws(renderer.fontMap, renderer.fallbacks, letters, false)
      ensures !drawable ==> uiFamily == [] && (old(uiFamily) == [] ==> renderer.fallbacks == old(renderer.fallbacks))
      ensures Remembers(drawable, old(OtherFonts()), families, generation, lang, letters, old(failedGeneration),
                        old(failedLanguage), old(vain), old(faults)) && (old(InVain(vain)) ==> InVain(vain))
      ensures old(faults) <= faults
      ensures faults == old(faults) ==>
                (drawable <==>
                  old(CanDraw(letters, families, generation == failedGeneration && lang == failedLanguage)))
    {
      hide LoadedIds, UiIds, UiDraws, FontLru.Ids, FontLru.Distinct, Consistent, VariantsOk, PointedAt,
           SomeServes, InVain;
      var builtin := CheckUi(letters, true);
      if builtin {
        DropUiFamily(letters, true);
        BuiltinDrawsAnyway(renderer.fontMap, renderer.fallbacks, letters);
        return true;
      }
      var covered := CheckUi(letters, false);
      if covered {
        var used := UiFamilyInUse();
        if uiFamily != [] && !used {
          DropUiFamily(letters, false);
        }
        return true;
      }
      drawable := FindUiFonts(letters, families, generation, lang);
    }

    /** Unloads a UI family that no fallback needs; what the UI draws does not change. */
    method DropUiFamily(letters: seq<nat>, builtinOnly: bool)
      requires Valid() && UiDraws(renderer.fontMap, renderer.fallbacks, letters, builtinOnly)
      requires !builtinOnly ==>
        forall i :: 0 <= i < 3 && UI_FONT_IDS[i] in renderer.fallbacks ==>
          renderer.fallbacks[UI_FONT_IDS[i]] !in LoadedIds(uiManager.loaded)
      modifies this`uiFamily, this`uiFontIds, uiManager`loaded, uiManager`loadedFamilyName,
               uiManager`loadedPointSize, renderer
      ensures Valid() && uiFamily == [] && OtherFonts() == old(OtherFonts())
      ensures UiDraws(renderer.fontMap, renderer.fallbacks, letters, builtinOnly)
    {
      hide LoadedIds, UiIds, UiDraws, FontLru.Ids, FontLru.Distinct, Consistent, VariantsOk;
      UiFontsApart();
      UnusedMayGo(renderer.fontMap, renderer.fallbacks, LoadedIds(uiManager.loaded), letters, builtinOnly);
      UnloadUiFamily();
      NothingLoaded();
    }

    lemma UiFontsThere()
      requires Valid()
      ensures UiIds() <= renderer.fontMap.Keys
    {
    }

    /**
     * Chooses the language of the UI: the saved one when the loaded fonts, or fonts that can be loaded from
     * the card, draw its letters at every UI size, else English.
     */
    method ApplyUiLanguage(saved: nat, lettersOf: seq<seq<nat>>, families: seq<Family>, generation: nat)
      requires Valid() && |lettersOf| > 0 && forall f :: f in families ==> WellFormed(f)
      modifies this`uiFontIds, this`uiFamily, this`faults, this`failedGeneration, this`failedLanguage, this`vain,
               this`uiLanguageUnavailable, this`language, uiManager, renderer
      ensures Valid() && OtherFonts() == old(OtherFonts())
      ensures var lang := if saved < |lettersOf| then saved else EN;
              Remembers(!uiLanguageUnavailable, old(OtherFonts()), families, generation, lang, lettersOf[lang],
                        old(failedGeneration), old(failedLanguage), old(vain), old(faults)) &&
              (old(InVain(vain)) ==> InVain(vain))
      ensures uiLanguageUnavailable ==>
                uiFamily == [] && (old(uiFamily) == [] ==> renderer.fallbacks == old(renderer.fallbacks))
      ensures var lang := if saved < |lettersOf| then saved else EN;
              language == (if uiLanguageUnavailable then EN else lang) && language < |lettersOf| &&
              (!uiLanguageUnavailable ==>
                UiDraws(renderer.fontMap, renderer.fallbacks, lettersOf[language], false) &&
                EveryLetterDrawn(renderer.fontMap, renderer.fallbacks, lettersOf[language]))
      ensures old(faults) <= faults
      ensures var lang := if saved < |lettersOf| then saved else EN;
              faults == old(faults) ==>
                (uiLanguageUnavailable <==>
                  !old(CanDraw(lettersOf[lang], families, generation == failedGeneration && lang == failedLanguage)))
    {
      hide LoadedIds, UiIds, UiDraws, Consistent, VariantsOk, SomeServes, InVain, CanDraw, EveryLetterDrawn;
      var lang := if saved < |lettersOf| then saved else EN;
      var drawable := MakeDrawable(lettersOf[lang], families, generation, lang);
      uiLanguageUnavailable := !drawable;
      language := if drawable then lang else EN;
      UiFontsThere();
      UiDrawsLetters(renderer.fontMap, renderer.fallbacks, lettersOf[lang]);
    }

    lemma UiFontsApart()
      requires Valid()
      ensures LoadedIds(uiManager.loaded) !! UiIds() && manager != uiManager
    {
    }

    /** UI size i falls back to the reader manager's font of that size. */
    static predicate SizePoints(fallbacks: map<int, int>, reader: seq<LoadedFont>, i: nat)
      requires i < 3
    {
      exists k :: 0 <= k < |reader| && reader[k].size == UI_SIZES[i] &&
                  UI_FONT_IDS[i] in fallbacks && fallbacks[UI_FONT_IDS[i]] == reader[k].fontId
    }

    /** The id of reader size i was taken before its turn came. */
    static predicate TakenBefore(readerId: int, taken: set<int>, i: nat)
      requires i < 3
    {
      VariantFontId(readerId, UI_SIZES[i]) in taken ||
      exists j :: 0 <= j < i && VariantIds(readerId)[j] == VariantIds(readerId)[i]
    }

    static function VariantIds(readerId: int): (ids: seq<int>)
      ensures |ids| == 3 && forall i :: 0 <= i < 3 ==> ids[i] == VariantFontId(readerId, UI_SIZES[i])
    {
      hide VariantFontId;
      seq(3, i requires 0 <= i < 3 => VariantFontId(readerId, UI_SIZES[i]))
    }

    /**
     * Registers the reader family's UI sizes as fallbacks, when the reader font has a script the built-in fonts may
     * lack; else the family's UI sizes are not even looked at.
     */
    method SetupUiFallbacks(family: Family)
      requires Valid() && manager.loaded != [] && variants.variants == [] && WellFormed(family)
      requires manager.loadedFamilyName == family.name
      modifies this`faults, manager`loaded, manager`faults, renderer
      ensures Valid() && manager.loaded != [] && manager.loaded[0] == old(manager.loaded)[0] &&
              Builtins() == old(Builtins())
      ensures old(manager.loaded)[0].fontId in old(renderer.fontMap)
      ensures !HasFallbackScript(old(renderer.fontMap)[old(manager.loaded)[0].fontId]) ==>
                renderer.fallbacks == old(renderer.fallbacks) && renderer.fontMap == old(renderer.fontMap) &&
                manager.loaded == old(manager.loaded)
      ensures HasFallbackScript(old(renderer.fontMap)[old(manager.loaded)[0].fontId]) && faults == old(faults) ==>
                forall i :: 0 <= i < 3 && FindFile(family.files, UI_SIZES[i]).Some? ==>
                  SizePoints(renderer.fallbacks, manager.loaded, i) ||
                  TakenBefore(old(manager.loaded)[0].fontId, old(renderer.fontMap).Keys, i)
      ensures forall i :: 0 <= i < 3 ==>
                FallbackKept(old(renderer.fallbacks), renderer.fallbacks, i) ||
                SizePoints(renderer.fallbacks, manager.loaded, i)
      ensures forall i :: 0 <= i < 3 && FindFile(family.files, UI_SIZES[i]).None? ==>
                FallbackKept(old(renderer.fallbacks), renderer.fallbacks, i)
      ensures old(faults) <= faults
    {
      hide LoadedIds, UiIds, FontLru.Ids, FontLru.Distinct, TakenBefore, SizePoints, FallbackKept,
           VariantFontId, FindFile,
           Consistent, VariantsOk;
      AllKept(renderer.fallbacks);
      var readerId := manager.loaded[0].fontId;
      ReaderRegistered();
      ghost var taken, fallbacks := renderer.fontMap.Keys, renderer.fallbacks;
      if !HasFallbackScript(renderer.fontMap[readerId]) {
        return;
      }
      for i := 0 to 3
        invariant Valid() && manager.loaded != [] && manager.loaded[0] == old(manager.loaded)[0] &&
                  Builtins() == old(Builtins())
        invariant forall id :: id in renderer.fontMap ==> id in taken || id in VariantIds(readerId)[..i]
        invariant forall j :: i <= j < 3 ==> FallbackKept(fallbacks, renderer.fallbacks, j)
        invariant forall j :: 0 <= j < i ==>
                    FallbackKept(fallbacks, renderer.fallbacks, j) || SizePoints(renderer.fallbacks, manager.loaded, j)
        invariant forall j :: 0 <= j < i && FindFile(family.files, UI_SIZES[j]).None? ==>
                    FallbackKept(fallbacks, renderer.fallbacks, j)
        invariant faults == old(faults) ==> forall j :: 0 <= j < i && FindFile(family.files, UI_SIZES[j]).Some? ==>
                    SizePoints(renderer.fallbacks, manager.loaded, j) || TakenBefore(readerId, taken, j)
        invariant old(faults) <= faults
      {
        ghost var was, reader := renderer.fallbacks, manager.loaded;
        SetupUiSize(family, readerId, i);
        forall j | 0 <= j < 3 && j != i
          ensures SizePoints(was, reader, j) ==> SizePoints(renderer.fallbacks, manager.loaded, j)
          ensures FallbackKept(fallbacks, was, j) ==> FallbackKept(fallbacks, renderer.fallbacks, j) {
          assert FallbackKept(was, renderer.fallbacks, j);
          KeptOrPoints(fallbacks, was, renderer.fallbacks, reader, manager.loaded, j);
        }
        KeptStill(fallbacks, was, renderer.fallbacks, i);
        if VariantFontId(readerId, UI_SIZES[i]) in taken ||
            VariantFontId(readerId, UI_SIZES[i]) in VariantIds(readerId)[..i] {
          TakenEarlier(readerId, taken, i);
        }
        assert VariantIds(readerId)[..i + 1] == VariantIds(readerId)[..i] + [VariantFontId(readerId, UI_SIZES[i])];
      }
    }

    static lemma TakenEarlier(readerId: int, taken: set<int>, i: nat)
      requires i < 3
      requires VariantFontId(readerId, UI_SIZES[i]) in taken ||
               VariantFontId(readerId, UI_SIZES[i]) in VariantIds(readerId)[..i]
      ensures TakenBefore(readerId, taken, i)
    {
      hide VariantFontId;
    }

    static predicate FallbackKept(before: map<int, int>, after: map<int, int>, i: nat)
      requires i < 3
    {
      (UI_FONT_IDS[i] in after <==> UI_FONT_IDS[i] in before) &&
      (UI_FONT_IDS[i] in before ==> after[UI_FONT_IDS[i]] == before[UI_FONT_IDS[i]])
    }

    static lemma AllKept(fallbacks: map<int, int>)
      ensures forall i :: 0 <= i < 3 ==> FallbackKept(fallbacks, fallbacks, i)
    {
    }

    static lemma KeptStill(first: map<int, int>, before: map<int, int>, after: map<int, int>, i: nat)
      requires i < 3 && FallbackKept(first, before, i)
      ensures FallbackKept(before, after, i) ==> FallbackKept(first, after, i)
    {
    }

    static lemma KeptOrPoints(first: map<int, int>, before: map<int, int>, after: map<int, int>, a: seq<LoadedFont>,
                              b: seq<LoadedFont>, i: nat)
      requires i < 3 && a <= b && FallbackKept(before, after, i)
      ensures FallbackKept(first, before, i) ==> FallbackKept(first, after, i)
      ensures SizePoints(before, a, i) ==> SizePoints(after, b, i)
    {
      if SizePoints(before, a, i) {
        var k :| 0 <= k < |a| && a[k].size == UI_SIZES[i] && UI_FONT_IDS[i] in before &&
                 before[UI_FONT_IDS[i]] == a[k].fontId;
        assert b[k] == a[k];
      }
    }

    method SetupUiSize(family: Family, readerId: int, i: nat)
      requires Valid() && manager.loaded != [] && variants.variants == [] && WellFormed(family) && i < 3
      requires manager.loadedFamilyName == family.name
      modifies this`faults, manager`loaded, manager`faults, renderer
      ensures Valid() && manager.loaded != [] && manager.loaded[0] == old(manager.loaded)[0] &&
              Builtins() == old(Builtins())
      ensures old(manager.loaded) <= manager.loaded
      ensures forall id :: id in renderer.fontMap ==>
                id in old(renderer.fontMap) || id == VariantFontId(readerId, UI_SIZES[i])
      ensures forall j :: 0 <= j < 3 && j != i ==> FallbackKept(old(renderer.fallbacks), renderer.fallbacks, j)
      ensures FallbackKept(old(renderer.fallbacks), renderer.fallbacks, i) ||
              SizePoints(renderer.fallbacks, manager.loaded, i)
      ensures FindFile(family.files, UI_SIZES[i]).None? ==> FallbackKept(old(renderer.fallbacks), renderer.fallbacks, i)
      ensures faults == old(faults) && FindFile(family.files, UI_SIZES[i]).Some? ==>
                SizePoints(renderer.fallbacks, manager.loaded, i) ||
                VariantFontId(readerId, UI_SIZES[i]) in old(renderer.fontMap)
      ensures old(faults) <= faults
    {
      hide LoadedIds, UiIds, FontLru.Distinct, VariantFontId, ComputeFontId, FindFile;
      ghost var reader, fontMap, managerFaults := manager.loaded, renderer.fontMap, manager.faults;
      FontOfSize(UI_SIZES[i], family.name);
      NoVariants();
      var id := manager.LoadFamilyExtraSize(family, renderer, UI_SIZES[i], VariantFontId(readerId, UI_SIZES[i]));
      faults := faults + (manager.faults - managerFaults);
      if manager.loaded != reader {
        var f := LoadedFont(id, UI_SIZES[i]);
        ReaderLoads(fontMap, renderer.fallbacks, reader, uiManager.loaded, f, renderer.fontMap[id]);
        AppendedIds(reader, f);
        assert manager.loaded[|reader|] == f;
      }
      if id != 0 {
        FallbackSet(renderer.fontMap, renderer.fallbacks, manager.loaded, uiManager.loaded, UI_FONT_IDS[i], id);
        renderer.SetFallbackFont(UI_FONT_IDS[i], id);
      }
    }

    lemma NoVariants()
      requires variants.variants == []
      ensures FontLru.Ids(variants.variants) == {}
    {
    }

    lemma FontOfSize(pointSize: byte, name: seq<byte>)
      ensures manager.GetFontId(name, pointSize) == 0 || manager.GetFontId(name, pointSize) in LoadedIds(manager.loaded)
      ensures manager.GetFontId(name, pointSize) != 0 && pointSize != 0 ==>
                exists k :: 0 <= k < |manager.loaded| && manager.loaded[k].size == pointSize &&
                            manager.loaded[k].fontId == manager.GetFontId(name, pointSize)
    {
      FirstOfSize(manager.loaded, pointSize);
      if manager.GetFontId(name, pointSize) != 0 {
        LoadedSomewhere(pointSize, name);
      }
    }

    static lemma {:induction false} FirstOfSize(fonts: seq<LoadedFont>, size: byte)
      ensures Manager.IdAtSize(fonts, size) != 0 ==>
                exists k :: 0 <= k < |fonts| && fonts[k].size == size &&
                            fonts[k].fontId == Manager.IdAtSize(fonts, size)
    {
      if fonts != [] && fonts[0].size != size {
        FirstOfSize(fonts[1..], size);
        if Manager.IdAtSize(fonts, size) != 0 {
          var rest := fonts[1..];
          var k :| 0 <= k < |rest| && rest[k].size == size && rest[k].fontId == Manager.IdAtSize(rest, size);
          assert fonts[k + 1] == rest[k];
        }
      }
    }

    lemma ReaderRegistered()
      requires Valid() && manager.loaded != []
      ensures manager.loaded[0].fontId in renderer.fontMap
    {
      hide UiIds;
      assert manager.loaded[0] in manager.loaded;
    }

    /** size is an installed size of the family, and none is nearer to the wanted one. */
    static predicate NearestSize(family: Family, size: byte, wanted: byte)
    {
      exists f :: f in family.files && f.style == 0 && f.pointSize == size &&
                  forall g :: g in family.files && g.style == 0 ==> !Closer(g, f, wanted)
    }

    static lemma Nearest(family: Family, f: FontFile, wanted: byte)
      requires f in family.files && f.style == 0 &&
               forall g :: g in family.files && g.style == 0 ==> !Closer(g, f, wanted)
      ensures NearestSize(family, f.pointSize, wanted)
    {
    }

    /** The family has a regular file, and no such file has an id that is taken. */
    static predicate Loadable(family: Family, taken: map<int, Face>)
    {
      (exists f :: f in family.files && f.style == 0) && WellFormed(family) && Manager.IdsFree(family, taken)
    }

    /** No file of the family draws one of the probes. */
    static predicate NoProbes(family: Family)
    {
      forall f :: f in family.files ==> !HasFallbackScript(f.face)
    }

    /** The fonts that stay registered while the wanted family is loaded. */
    function Staying(wanted: seq<byte>): map<int, Face>
      reads this, renderer, manager, uiManager
    {
      renderer.fontMap - LoadedIds(manager.loaded) - (if uiFamily == wanted then LoadedIds(uiManager.loaded) else {})
    }

    /**
     * Makes the resident reader font that of the settings, at the installed size nearest to the wanted one; says
     * whether the settings' family had to be cleared.
     */
    method LoadReaderFamily(wanted: seq<byte>, families: seq<Family>, pointSize: byte, reload: bool)
      returns (cleared: bool)
      requires Valid() && forall f :: f in families ==> WellFormed(f)
      modifies this`variants, this`faults, this`uiFamily, this`uiFontIds, manager, uiManager, renderer
      ensures Valid() && Builtins() == old(Builtins()) && old(faults) <= faults
      ensures manager.loadedFamilyName == if cleared || wanted == [] then [] else wanted
      ensures uiFamily == [] || uiFamily == old(uiFamily)
      ensures var family := FindFamily(families, wanted);
              wanted != [] ==>
                (family.None? ==> cleared) &&
                (!cleared ==> NearestSize(family.value, manager.loadedPointSize, pointSize)) &&
                (family.Some? && faults == old(faults) && Loadable(family.value, old(Staying(wanted))) ==> !cleared)
      ensures wanted == [] || (FindFamily(families, wanted).Some? && NoProbes(FindFamily(families, wanted).value)) ==>
                FewerFallbacks(old(renderer.fallbacks), renderer.fallbacks)
    {
      hide LoadedIds, UiIds, FontLru.Ids, FontLru.Distinct, Consistent, VariantsOk, Closer, NoProbes, Manager.IdsFree,
           NearestSize;
      NoIds();
      ghost var staying := Staying(wanted);
      var current := manager.loadedFamilyName;
      if wanted == [] {
        if current != [] {
          UnloadCpfonts();
        }
        return false;
      }
      var family := FindFamily(families, wanted);
      if current == wanted && family.Some? && !reload {
        var selected := FindNearestSize(family.value.files, pointSize);
        if selected.Some? && selected.value.pointSize == manager.loadedPointSize {
          Nearest(family.value, selected.value, pointSize);
          return false;
        }
      }
      if current != [] {
        UnloadCpfonts();
      }
      if current == wanted && family.None? {
        return true;
      }
      if uiFamily == wanted {
        UnloadUiFamily();
      }
      if family.None? {
        return true;
      }
      assert renderer.fontMap == staying;
      var loaded := LoadReader(family.value, pointSize);
      cleared := !loaded;
    }

    static predicate FewerFallbacks(before: map<int, int>, after: map<int, int>)
    {
      forall u :: u in after ==> u in before && after[u] == before[u]
    }

    method LoadReader(family: Family, pointSize: byte) returns (ok: bool)
      requires Valid() && manager.loaded == [] && WellFormed(family)
      modifies this`faults, manager, renderer
      ensures Valid() && manager.loadedFamilyName == (if ok then family.name else []) && Builtins() == old(Builtins())
      ensures ok ==> NearestSize(family, manager.loadedPointSize, pointSize)
      ensures old(faults) <= faults
      ensures faults == old(faults) && Loadable(family, old(renderer.fontMap)) ==> ok
      ensures NoProbes(family) ==> renderer.fallbacks == old(renderer.fallbacks)
    {
      hide LoadedIds, UiIds, FontLru.Ids, FontLru.Distinct, Closer, Manager.IdsFree, HasFallbackScript;
      ghost var fontMap, fallbacks, managerFaults := renderer.fontMap, renderer.fallbacks, manager.faults;
      Manager.NothingDropped(fontMap, fallbacks);
      NoIds();
      ok := manager.LoadFamily(family, renderer, pointSize);
      faults := faults + (manager.faults - managerFaults);
      if ok {
        ghost var f :| f in family.files && renderer.fontMap == fontMap[manager.loaded[0].fontId := f.face];
        ReaderLoads(fontMap, fallbacks, [], uiManager.loaded, manager.loaded[0], f.face);
        assert [] + [manager.loaded[0]] == manager.loaded;
        AppendedIds([], manager.loaded[0]);
        NoVariants();
        SetupUiFallbacks(family);
      }
    }

    /** The reader font and the UI language, both brought in line with the settings. */
    method EnsureLoaded(wanted: seq<byte>, families: seq<Family>, pointSize: byte, reload: bool,
                        saved: nat, lettersOf: seq<seq<nat>>, generation: nat)
      returns (cleared: bool)
      requires Valid() && |lettersOf| > 0 && forall f :: f in families ==> WellFormed(f)
      modifies this, manager, uiManager, renderer
      ensures Valid() && manager.loadedFamilyName == if cleared || wanted == [] then [] else wanted
      ensures language < |lettersOf| &&
              (language == EN ||
               (language == saved && EveryLetterDrawn(renderer.fontMap, renderer.fallbacks, lettersOf[language])))
      ensures (uiFamily == []) <==> (uiManager.loaded == [])
      ensures Builtins() == old(Builtins())
    {
      hide LoadedIds, UiIds, UiDraws, FontLru.Ids, FontLru.Distinct, Consistent, VariantsOk, CanDraw, InVain,
           NearestSize,
           FewerFallbacks, Manager.IdsFree, FindFamily, SomeServes;
      cleared := LoadReaderFamily(wanted, families, pointSize, reload);
      ghost var fonts := Builtins();
      ApplyUiLanguage(saved, lettersOf, families, generation);
      BuiltinsOfOthers();
    }

    /** The firmware's fonts are those of the other fonts that are not the reader's. */
    lemma BuiltinsOfOthers()
      ensures Builtins() == OtherFonts() - LoadedIds(manager.loaded)
    {
      hide LoadedIds;
    }
  }

  // ---- A search remembered for too long ----

  /** A family of one accented letter in the three UI sizes; it has none of the probes. */
  const SAMPLE: Family := Family([82], false, [SampleFile(8), SampleFile(10), SampleFile(12)])
  const SAMPLE_LETTERS: seq<seq<nat>> := [[65], [0x101]]

  function SampleFile(size: byte): FontFile { FontFile(size, 0, 82, Face({0x101})) }

  /** The firmware's UI fonts, which lack the letter. */
  function SampleFonts(): map<int, Face>
  {
    map[-1769521860 := Face({65}), 1322569422 := Face({65}), 1831230762 := Face({65})]
  }

  lemma SampleId(size: byte)
    requires size == 8 || size == 10 || size == 12
    ensures ComputeFontId(82, [82], size) == size as int * 16777619
  {
    hide FlashFormat.FnvByte;
    assert [82] + [size] == [82, size] && [82, size][..1] == [82] && [82][..0] == [];
    assert FlashFormat.Fnv1a(82, []) == 82;
    FlashFormat.FnvOfChunks(82, [82], [size]);
    SampleSteps(size);
    assert [size][..0] == [];
  }

  lemma SampleSteps(size: byte)
    requires size == 8 || size == 10 || size == 12
    ensures FlashFormat.FnvByte(82, 82) == 0 && FlashFormat.FnvByte(0, size) == size * 16777619
  {
  }

  lemma SampleFiles()
    ensures forall i :: 0 <= i < 3 ==> FindFile(SAMPLE.files, UI_SIZES[i]) == Some(SampleFile(UI_SIZES[i]))
    ensures WellFormed(SAMPLE) && HasUiSizes(SAMPLE)
  {
    assert SAMPLE.files[1..] == [SampleFile(10), SampleFile(12)] && SAMPLE.files[1..][1..] == [SampleFile(12)];
  }

  lemma SampleUiId(i: nat)
    requires i < 3
    ensures WellFormed(SAMPLE) && HasUiSizes(SAMPLE) && UiFile(SAMPLE, i) == SampleFile(UI_SIZES[i])
    ensures UiIdOf(SAMPLE, i) == UI_SIZES[i] as int * 16777619
  {
    hide ComputeFontId;
    SampleFiles();
    SampleId(UI_SIZES[i]);
  }

  lemma SampleSize(i: nat)
    requires i < 3
    ensures WellFormed(SAMPLE) && HasUiSizes(SAMPLE) && SizeServes(SampleFonts(), SAMPLE, [0x101], i)
  {
    hide UiIdOf, UiFile;
    SampleUiId(i);
    forall j | 0 <= j < i ensures UiIdOf(SAMPLE, j) != UiIdOf(SAMPLE, i) {
      SampleUiId(j);
    }
  }

  lemma SampleLoads()
    ensures FontSystem.Loadable(SAMPLE, SampleFonts()) && FontSystem.NoProbes(SAMPLE)
  {
    hide ComputeFontId;
    SampleFiles();
    assert SampleFile(8) in SAMPLE.files;
    forall f | f in SAMPLE.files ensures ComputeFontId(f.contentHash, SAMPLE.name, f.pointSize) !in SampleFonts() {
      SampleId(f.pointSize);
    }
  }

  /** The family serves, unless it is the reader's; its ids are free, and it gets no UI sizes as the reader's. */
  lemma SampleServes()
    ensures WellFormed(SAMPLE) && FontSystem.Loadable(SAMPLE, SampleFonts()) && FontSystem.NoProbes(SAMPLE)
    ensures SomeServes(SampleFonts(), [SAMPLE], [], [0x101]) &&
            !SomeServes(SampleFonts(), [SAMPLE], SAMPLE.name, [0x101])
  {
    hide SizeServes, FontSystem.Loadable, FontSystem.NoProbes;
    SampleFiles();
    SampleLoads();
    forall i | 0 <= i < 3 ensures SizeServes(SampleFonts(), SAMPLE, [0x101], i) {
      SampleSize(i);
    }
    assert Serves(SampleFonts(), [SAMPLE][0], [], [0x101]);
  }

  /** Nothing but the firmware's fonts and, perhaps, the reader's is loaded, and nothing falls back. */
  predicate SampleState(system: FontSystem)
    reads system, system.renderer, system.manager, system.uiManager
  {
    system.Valid() && system.uiFamily == [] && system.renderer.fallbacks == map[] && system.Builtins() == SampleFonts()
  }

  lemma SampleUndrawn(system: FontSystem)
    requires SampleState(system)
    ensures !system.DrawnAsIs([0x101])
  {
    hide LoadedIds, VariantsOk, NoDangling;
    var fontMap := system.renderer.fontMap;
    assert -1769521860 in system.Builtins();
    assert fontMap[-1769521860] == Face({65});
    assert UI_FONT_IDS[0] == -1769521860;
    assert 0x101 in [0x101] && !DrawsLetter(Face({65}), None, 0x101);
    assert !UiSizeDraws(fontMap, map[], [0x101], true, 0) && !UiSizeDraws(fontMap, map[], [0x101], false, 0);
  }

  /** While the family is the reader's, it is skipped; afterwards only the memory of that search is in the way. */
  lemma SampleMemo(system: FontSystem)
    requires SampleState(system)
    ensures system.manager.loadedFamilyName == SAMPLE.name ==> !system.CanDraw([0x101], [SAMPLE], false)
    ensures WellFormed(SAMPLE) && !system.CanDraw([0x101], [SAMPLE], true)
    ensures system.manager.loadedFamilyName == [] ==> system.CanDraw([0x101], [SAMPLE], false)
  {
    hide Serves, UiDraws, Consistent, VariantsOk, FontSystem.DrawnAsIs, FontSystem.Loadable, FontSystem.NoProbes;
    SampleServes();
    SampleUndrawn(system);
    if system.manager.loadedFamilyName == [] {
      NoIds();
      assert system.OtherFonts() == SampleFonts();
    } else if SomeServes(system.OtherFonts(), [SAMPLE], SAMPLE.name, [0x101]) {
      SkippedServesNot(system.OtherFonts());
    }
  }

  lemma SkippedServesNot(fontMap: map<int, Face>)
    requires WellFormed(SAMPLE)
    ensures !Serves(fontMap, SAMPLE, SAMPLE.name, [0x101])
  {
  }

  /** A system started with the family as the reader's. */
  method SampleReader() returns (system: FontSystem)
    ensures fresh(system) && fresh(system.renderer) && fresh(system.manager) && fresh(system.uiManager)
    ensures system.Valid() && system.failedLanguage == -1
    ensures system.faults == 0 ==> SampleState(system) && system.manager.loadedFamilyName == SAMPLE.name
  {
    hide FontSystem.Valid, FontSystem.Loadable, FontSystem.NoProbes, FontSystem.NearestSize, WellFormed, InVain;
    var r := new Renderer(SampleFonts());
    var m := new Manager();
    var u := new Manager();
    SampleBegins(r, m, u);
    system := new FontSystem(r, m, u);
    SampleServes();
    FirmwareOnly(system);
    assert FindFamily([SAMPLE], SAMPLE.name) == Some(SAMPLE);
    var cleared := system.LoadReaderFamily(SAMPLE.name, [SAMPLE], 12, false);
    if system.faults == 0 {
      NoneLeft(map[], system.renderer.fallbacks);
    }
  }

  /** The system with the family as the reader's, which then is searched for the language in vain. */
  method SearchInVain() returns (system: FontSystem)
    ensures fresh(system) && fresh(system.renderer) && fresh(system.manager) && fresh(system.uiManager)
    ensures WellFormed(SAMPLE) && system.Valid()
    ensures system.faults == 0 ==>
              SampleState(system) && system.language == EN && system.failedGeneration == 1 &&
              system.failedLanguage == 1 &&
              system.vain == Search(system.vain.fonts, [SAMPLE], SAMPLE.name, [0x101], true)
  {
    hide FontSystem.CanDraw, FontSystem.Valid, SomeServes, UiDraws, WellFormed, InVain;
    system := SampleReader();
    SampleFiles();
    if system.faults == 0 {
      SampleMemo(system);
    }
    system.UiFontsApart();
    system.ApplyUiLanguage(1, SAMPLE_LETTERS, [SAMPLE], 1);
    system.BuiltinsOfOthers();
  }

  lemma FirmwareOnly(system: FontSystem)
    requires system.manager.loaded == [] && system.uiManager.loaded == []
    ensures system.Builtins() == system.renderer.fontMap
    ensures system.uiFamily == [] ==> system.Staying(SAMPLE.name) == system.renderer.fontMap
  {
  }

  lemma NoneLeft(before: map<int, int>, after: map<int, int>)
    requires FontSystem.FewerFallbacks(before, after) && before == map[]
    ensures after == map[]
  {
    assert forall u :: u !in after;
  }

  lemma SampleBegins(r: Renderer, m: Manager, u: Manager)
    requires r.fontMap == SampleFonts()
    ensures UiIds() <= r.fontMap.Keys && 0 !in r.fontMap
  {
  }

  /** Unless a call fails, a language that the sample family could draw is shown in English for good. */
  method RememberedTooLong() returns (system: FontSystem)
    ensures system.Valid() && WellFormed(SAMPLE)
    ensures system.faults == 0 ==>
              system.uiLanguageUnavailable && system.language == EN && system.manager.loadedFamilyName == [] &&
              system.CanDraw([0x101], [SAMPLE], false)
  {
    hide FontSystem.CanDraw, FontSystem.Valid, FontSystem.NearestSize, SomeServes, UiDraws, WellFormed, InVain;
    system := SearchInVain();
    ghost var fallbacks := system.renderer.fallbacks;
    var cleared := system.LoadReaderFamily([], [SAMPLE], 12, false);
    if system.faults == 0 {
      NoneLeft(fallbacks, system.renderer.fallbacks);
      SampleMemo(system);
    }
    system.UiFontsApart();
    system.ApplyUiLanguage(1, SAMPLE_LETTERS, [SAMPLE], 1);
    system.BuiltinsOfOthers();
    if system.faults == 0 {
      SampleMemo(system);
    }
  }
}
