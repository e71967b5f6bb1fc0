/**
 Model of `texture_renderer_t` (texturizer.cpp, include/texturizer.h): a cache from
 upper-cased pixelmap names to textures, filled from a pixelmap file, whose entries
 get an OpenGL texture name the first time they are selected.

 The file reader (`resource_file_t::read_file_header`, `pixelmap_t::read`) is not part
 of this model: a `PixelmapFile` says whether the header check succeeds and lists the
 pixelmaps the successive reads return. OpenGL is reduced to the texture-name
 generator behind `glGenTextures`; binding, uploading and drawing are not modelled.
 */
module Texturizer {

  newtype u8 = x: int | 0 <= x < 0x100
  newtype u16 = x: int | 0 <= x < 0x1_0000

  /** An OpenGL texture name; 0 means "no texture". */
  type GLuint = nat

  /** A decoded pixelmap (`pixelmap_t`): its name, dimensions and palette-index bytes. */
  datatype Pixelmap = Pixelmap(name: string, w: u16, h: u16, data: seq<u8>)

  /** What reading a pixelmap file yields: the header check, then the pixelmaps read in order. */
  datatype PixelmapFile = PixelmapFile(headerOk: bool, pixelmaps: seq<Pixelmap>)

  /** `toupper` in the C locale: only the ASCII letters a to z change. */
  function UpperChar(c: char): (u: char)
    ensures !('a' <= u <= 'z')
    ensures 'a' <= c <= 'z' ==> u as int == c as int - 32
    ensures !('a' <= c <= 'z') ==> u == c
  {
    if 'a' <= c <= 'z' then (c as int - 32) as char else c
  }

  predicate IsUpper(s: string) {
    forall i :: 0 <= i < |s| ==> !('a' <= s[i] <= 'z')
  }

  /** The `std::transform(..., toupper)` applied to a pixelmap's name. */
  function ToUpper(s: string): (u: string)
    ensures |u| == |s| && IsUpper(u)
    ensures forall i :: 0 <= i < |s| && !('a' <= s[i] <= 'z') ==> u[i] == s[i]
    ensures forall i :: 0 <= i < |s| && 'a' <= s[i] <= 'z' ==> u[i] as int == s[i] as int - 32
    ensures IsUpper(s) ==> u == s
  {
    seq(|s|, i requires 0 <= i < |s| => UpperChar(s[i]))
  }

  /** The cache key under which `read` stores a pixelmap. */
  function Key(pm: Pixelmap): string {
    ToUpper(pm.name)
  }

  /** The state of one cached texture: its pixelmap and its texture name. */
  datatype Entry = Entry(pixelmap: Pixelmap, boundId: GLuint)

  /** The abstract state of the cache. */
  type Cache = map<string, Entry>

  // ---------------------------------------------------------------------------
  // Specification of `read`.

  /** One iteration of `read`'s loop: add the pixelmap under its key unless the key is taken. */
  function Insert(v: Cache, pm: Pixelmap): Cache {
    var key := Key(pm);
    if key in v then v else v[key := Entry(pm.(name := key), 0)]
  }

  /** The pixelmaps inserted one after the other, in the order they were read. */
  function InsertAll(v: Cache, pms: seq<Pixelmap>): Cache
    decreases |pms|
  {
    if pms == [] then v else Insert(InsertAll(v, pms[..|pms| - 1]), pms[|pms| - 1])
  }

  /** `read`: its result and the new cache. */
  function ReadSpec(v: Cache, f: PixelmapFile): (bool, Cache) {
    if !f.headerOk then (false, v) else (true, InsertAll(v, f.pixelmaps))
  }

  /** The keys after `read` are the keys before it and the key of every pixelmap read. */
  lemma {:induction false} InsertAllKeys(v: Cache, pms: seq<Pixelmap>)
    decreases |pms|
    ensures InsertAll(v, pms).Keys == v.Keys + set i | 0 <= i < |pms| :: Key(pms[i])
  {
    if pms != [] {
      var init := pms[..|pms| - 1];
      InsertAllKeys(v, init);
      assert forall i :: 0 <= i < |init| ==> init[i] == pms[i];
    }
  }

  /** Every key added by `read` is upper-case. */
  lemma AddedKeysUpper(v: Cache, f: PixelmapFile)
    ensures forall k :: k in ReadSpec(v, f).1 && k !in v ==> IsUpper(k)
  {
    InsertAllKeys(v, f.pixelmaps);
  }

  /** Entries present before `read` are still there, unchanged: the first insert wins. */
  lemma {:induction false} InsertAllKeepsEntries(v: Cache, pms: seq<Pixelmap>, k: string)
    decreases |pms|
    requires k in v
    ensures k in InsertAll(v, pms) && InsertAll(v, pms)[k] == v[k]
  {
    if pms != [] {
      InsertAllKeepsEntries(v, pms[..|pms| - 1], k);
    }
  }

  /**
   A key that was not in the cache ends up holding the first pixelmap read with that key,
   renamed to the key, and no texture name.
   */
  lemma {:induction false} InsertAllFirstWins(v: Cache, pms: seq<Pixelmap>, i: nat)
    decreases |pms|
    requires i < |pms| && Key(pms[i]) !in v
    requires forall j :: 0 <= j < i ==> Key(pms[j]) != Key(pms[i])
    ensures Key(pms[i]) in InsertAll(v, pms)
    ensures InsertAll(v, pms)[Key(pms[i])] == Entry(pms[i].(name := Key(pms[i])), 0)
  {
    var init := pms[..|pms| - 1];
    if i == |pms| - 1 {
      InsertAllKeys(v, init);
      assert forall j :: 0 <= j < |init| ==> init[j] == pms[j];
    } else {
      assert forall j :: 0 <= j <= i ==> init[j] == pms[j];
      InsertAllFirstWins(v, init, i);
    }
  }

  /** A pixelmap whose key is already cached leaves the cache, and so its size, unchanged. */
  lemma {:induction false} InsertAllNoNewKeys(v: Cache, pms: seq<Pixelmap>)
    decreases |pms|
    requires forall i :: 0 <= i < |pms| ==> Key(pms[i]) in v
    ensures InsertAll(v, pms) == v
  {
    if pms != [] {
      InsertAllNoNewKeys(v, pms[..|pms| - 1]);
    }
  }

  /** Reading the same file a second time changes nothing. */
  lemma ReadTwice(v: Cache, f: PixelmapFile)
    ensures ReadSpec(ReadSpec(v, f).1, f) == ReadSpec(v, f)
  {
    if f.headerOk {
      InsertAllKeys(v, f.pixelmaps);
      InsertAllNoNewKeys(InsertAll(v, f.pixelmaps), f.pixelmaps);
    }
  }

  /** A failed header check returns false before any pixelmap is inserted. */
  lemma ReadHeaderFails(v: Cache, f: PixelmapFile)
    requires !f.headerOk
    ensures ReadSpec(v, f) == (false, v)
  {
  }

  // ---------------------------------------------------------------------------
  // Specification of `set_texture`.

  /**
   `set_texture(name)` when `glGenTextures` would hand out `id`: its result and the new cache.
   The lookup uses `name` as given, without upper-casing it.
   */
  function SetTextureSpec(v: Cache, name: string, id: GLuint): (r: (bool, Cache))
    ensures r.0 <==> name in v
    ensures r.1.Keys == v.Keys
    ensures forall k :: k in v && k != name ==> r.1[k] == v[k]
    ensures name in v ==> r.1[name].pixelmap == v[name].pixelmap
    ensures name in v && v[name].boundId != 0 ==> r.1[name] == v[name]
    ensures name in v && v[name].boundId == 0 ==> r.1[name].boundId == id
  {
    if name !in v then (false, v)
    else if v[name].boundId != 0 then (true, v)
    else (true, v[name := v[name].(boundId := id)])
  }

  /** A second `set_texture` of the same name reuses the name the first one bound. */
  lemma SetTextureIdempotent(v: Cache, name: string, id1: GLuint, id2: GLuint)
    requires id1 != 0
    ensures SetTextureSpec(SetTextureSpec(v, name, id1).1, name, id2) == SetTextureSpec(v, name, id1)
  {
  }

  /** The lookup is case-sensitive: a cached upper-case name is not found by its lower-case spelling. */
  lemma SetTextureCaseSensitive(pm: Pixelmap, id: GLuint)
    ensures var v := InsertAll(map[], [pm.(name := "road")]);
      "ROAD" in v && SetTextureSpec(v, "road", id) == (false, v)
  {
    var pms := [pm.(name := "road")];
    assert pms[..0] == [];
    assert ToUpper("road") == "ROAD";
  }

  /** No texture name is below `next`, so `next` is still unused. */
  ghost predicate NamesBelow(v: Cache, next: GLuint) {
    forall k :: k in v ==> v[k].boundId < next
  }

  /** No two entries share a texture name. */
  ghost predicate NamesDistinct(v: Cache) {
    forall a, b :: a in v && b in v && a != b && v[a].boundId != 0 ==> v[a].boundId != v[b].boundId
  }

  /** Binding with a name never handed out before keeps texture names distinct. */
  lemma SetTextureKeepsNamesDistinct(v: Cache, name: string, next: GLuint)
    requires NamesBelow(v, next) && NamesDistinct(v)
    ensures NamesBelow(SetTextureSpec(v, name, next).1, next + 1)
    ensures NamesDistinct(SetTextureSpec(v, name, next).1)
  {
    var w := SetTextureSpec(v, name, next).1;
    forall a, b | a in w && b in w && a != b && w[a].boundId != 0
      ensures w[a].boundId != w[b].boundId
    {
      assert v[a].boundId < next && v[b].boundId < next;
    }
  }

  /** An entry added by one insertion has no texture name. */
  lemma InsertKeepsNames(v: Cache, pm: Pixelmap, next: GLuint)
    requires NamesBelow(v, next) && NamesDistinct(v) && next != 0
    ensures NamesBelow(Insert(v, pm), next) && NamesDistinct(Insert(v, pm))
  {
  }

  /** Entries added by `read` have no texture name, so names stay distinct and below `next`. */
  lemma {:induction false} InsertAllKeepsNames(v: Cache, pms: seq<Pixelmap>, next: GLuint)
    decreases |pms|
    requires NamesBelow(v, next) && NamesDistinct(v) && next != 0
    ensures NamesBelow(InsertAll(v, pms), next) && NamesDistinct(InsertAll(v, pms))
  {
    if pms != [] {
      InsertAllKeepsNames(v, pms[..|pms| - 1], next);
      InsertKeepsNames(InsertAll(v, pms[..|pms| - 1]), pms[|pms| - 1], next);
    }
  }

  // ---------------------------------------------------------------------------
  // The objects.

  /** OpenGL's texture-name generator: `glGenTextures` hands out names never used before. */
  class GlTextureNames {
    /** The lowest name not handed out yet. */
    var next: GLuint

    constructor ()
      ensures next == 1
    {
      next := 1;
    }

    /** `glGenTextures(1, &id)`. */
    method GenTexture() returns (id: GLuint)
      modifies this
      ensures id == old(next) && next == old(next) + 1
    {
      id := next;
      next := next + 1;
    }
  }

  /** `texture_t`: a pixelmap and the texture name it is bound to (0 until bound). */
  class Texture {
    var boundId: GLuint
    var pixelmap: Pixelmap

    constructor ()
      ensures boundId == 0 && pixelmap == Pixelmap("", 0, 0, [])
    {
      boundId := 0;
      pixelmap := Pixelmap("", 0, 0, []);
    }
  }

  /** `texture_renderer_t`: the texture cache. */
  class TextureRenderer {
    var cache: map<string, Texture>
    /** The OpenGL context's name generator, global state in the source. */
    const gl: GlTextureNames

    /** The cache as values. */
    ghost function View(): Cache
      reads this, cache.Values
    {
      map k | k in cache :: Entry(cache[k].pixelmap, cache[k].boundId)
    }

    /** Every key owns its own texture, and bound names are distinct and were handed out by `gl`. */
    ghost predicate Valid()
      reads this, cache.Values, gl
    {
      && (forall a, b :: a in cache && b in cache && a != b ==> cache[a] != cache[b])
      && gl.next != 0
      && NamesBelow(View(), gl.next)
      && NamesDistinct(View())
    }

    constructor (gl: GlTextureNames)
      requires gl.next != 0
      ensures Valid() && this.gl == gl && View() == map[]
    {
      cache := map[];
      this.gl := gl;
    }

    /**
     One pass of `read`'s loop: a new texture holding the pixelmap, renamed to its upper-cased
     name, is added under that name unless the name is already cached.
     */
    method AddTexture(pmap: Pixelmap)
      requires Valid()
      modifies this
      ensures Valid()
      ensures View() == Insert(old(View()), pmap)
      ensures forall k :: k in old(cache) ==> k in cache && cache[k] == old(cache[k])
    {
      var tex := new Texture();
      tex.pixelmap := pmap;
      tex.pixelmap := tex.pixelmap.(name := ToUpper(tex.pixelmap.name));
      var key := tex.pixelmap.name;
      if key !in cache {
        cache := cache[key := tex];
        assert View() == old(View())[key := Entry(pmap.(name := key), 0)];
      } else {
        // already present: reported, and not added
      }
      InsertKeepsNames(old(View()), pmap, gl.next);
    }

    /** `read(f)`: check the header, then cache every pixelmap under its upper-cased name. */
    method Read(f: PixelmapFile) returns (ok: bool)
      requires Valid()
      modifies this
      ensures Valid()
      ensures (ok, View()) == ReadSpec(old(View()), f)
      ensures forall k :: k in old(cache) ==> k in cache && cache[k] == old(cache[k])
    {
      if !f.headerOk {
        return false;
      }
      ghost var start := View();
      var i := 0;
      while i < |f.pixelmaps|
        invariant i <= |f.pixelmaps|
        invariant Valid()
        invariant View() == InsertAll(start, f.pixelmaps[..i])
        invariant forall k :: k in old(cache) ==> k in cache && cache[k] == old(cache[k])
      {
        AddTexture(f.pixelmaps[i]);
        assert f.pixelmaps[..i + 1][..i] == f.pixelmaps[..i];
        i := i + 1;
      }
      assert f.pixelmaps[..i] == f.pixelmaps;
      return true;
    }

    /**
     `set_texture(name)`: look the name up as given; bind a new texture name to the entry
     the first time, reuse it afterwards.
     */
    method SetTexture(name: string) returns (ok: bool)
      requires Valid()
      modifies cache.Values, gl
      ensures Valid() && cache == old(cache)
      ensures (ok, View()) == SetTextureSpec(old(View()), name, old(gl.next))
      // a name is generated only for a cached entry that has none yet
      ensures gl.next == if name in old(View()) && old(View())[name].boundId == 0 then old(gl.next) + 1 else old(gl.next)
    {
      if name !in cache {
        return false;
      }
      var tex := cache[name];
      if tex.boundId != 0 {
        return true;
      }
      ghost var before := View();
      var id := gl.GenTexture();
      tex.boundId := id;
      assert View() == before[name := before[name].(boundId := id)];
      SetTextureKeepsNamesDistinct(before, name, id);
      return true;
    }

    /** `draw_texture(name)`: select the texture, then draw a quad with it. */
    method DrawTexture(name: string) returns (ok: bool)
      requires Valid()
      modifies cache.Values, gl
      ensures Valid() && cache == old(cache)
      ensures (ok, View()) == SetTextureSpec(old(View()), name, old(gl.next))
      // a name is generated only for a cached entry that has none yet
      ensures gl.next == if name in old(View()) && old(View())[name].boundId == 0 then old(gl.next) + 1 else old(gl.next)
    {
      ok := SetTexture(name);
      if !ok {
        return false;
      }
      return true;
    }
  }
}
