# Material loader and texture cache of the Roadkill / carma asset tools

This project models two small pieces of the tools that read the data files of a
vintage racing game:

- **Material loading** (`Material::load`, src/support/material.rs). A material is built
  by reading chunks one after another from a chunk reader. The material starts from its
  default value: twelve zero parameters and three empty names. A `MaterialDesc` chunk
  sets the name and the parameters. A `PixelmapRef` sets the texture name. A
  `RenderTabRef` sets the render-table name. A `FileHeader` must carry the material
  file type and otherwise panics. `Null` ends the record. Any other chunk is
  `unimplemented!()`. An error from the chunk reader is passed through.
- **The texture cache** (`texture_renderer_t`, texturizer.cpp and include/texturizer.h).
  `read` checks a pixelmap file's header and then caches every pixelmap in the file under
  its name with ASCII letters upper-cased. The first pixelmap with a given key is kept and
  later duplicates are not added. `set_texture` looks a name up as given. It binds a new
  OpenGL texture name to the entry the first time and reuses it afterwards.
  `draw_texture` succeeds exactly when `set_texture` does.

`material.dfy` holds module `Material`. The chunk reader is a `ChunkSource`: the chunks
that successive `Chunk::load` calls return, then the error of the first call that fails.
The model assumes that every reader ends in such an error, as a finite file does at
its end. `Run` is the loop as a function over that sequence. `Load` is the loop as written: a `while` loop that updates a local material
field by field. Its contract ties its result to `Run`. The loop either returns a
material (`Ok`), passes the reader's error through (`Err`), or stops the program
(`Abort`, for `panic!` and `unimplemented!()`). These three outcomes are kept apart.
`RunOutcome` decides every outcome from the first chunk that is not accepted. For a
complete record, `Collected` gives the fields. It is an independent description that
takes each field from the last chunk that writes it.

`texturizer.dfy` holds module `Texturizer`. `TextureRenderer` is a class whose `cache`
field maps names to `Texture` objects. `set_texture` updates a `Texture`'s `boundId` in
place through the map, as the source does through the `texture_t*` pointer. `View()` is
the cache as a map of values. `Read`, `SetTexture` and `DrawTexture` are proved against
`ReadSpec` and `SetTextureSpec`, which are functions on that view. The lemmas about
those functions state the properties of the cache. `Valid()` keeps three invariants:
every key owns its own texture, no two entries share a texture name, and every bound
name is below the generator's next name, so the generator never hands out a name
already in use.

Two behaviours of the code are worth stating outright:

- A wrong file type and an unexpected chunk do not return an error: the code panics in
  both cases, with `panic!` at src/support/material.rs:48 and `unimplemented!()` at
  line 51. The model gives both an `Abort` outcome, never `Err`.
- A file header is not required to come first. A matching header is accepted anywhere
  before `Null`, any number of times, and leaves the material unchanged.

## Model

| member | source | states |
|---|---|---|
| `Material.Default` | src/support/material.rs:17-28 | before any chunk is applied, all twelve parameters are zero and the name, texture name and render-table name are empty |
| `Material.Apply` | src/support/material.rs:34-52 | one chunk lets the loop go on exactly when it is a setter or a header of the material file type. `Null` stops the loop. A header of another type panics with that type. Any other chunk panics as unimplemented. `MaterialDesc` changes the name and the parameters together, `PixelmapRef` only the texture name and `RenderTabRef` only the render-table name. A matching header changes nothing |
| `Material.Load` | src/support/material.rs:27-56 | the loop's result equals `Run` from the default material over the reader's chunks. It reads exactly the chunks up to and including the one that stops it, so nothing after a `Null` is read |
| `Material.FirstStop` | src/support/material.rs:32-53 | the index of the first chunk that ends the loop: every chunk before it is accepted, and the chunk at it, if any, is not |
| `Material.LastWriter` | src/support/material.rs:35-44 | the index of the last chunk that writes a given field, with no later chunk writing it, or none when no chunk writes it |
| `Material.RunOutcome` | src/support/material.rs:32-55 | the first chunk that is not accepted decides the outcome. A `Null` there gives `Ok` with each field taken from the last chunk before it that writes that field. A wrong header aborts with its file type. Any other chunk aborts as unimplemented. If every chunk is accepted, the reader's error is returned |
| `Material.OkIffNullReached` | src/support/material.rs:32-55 | `load` returns `Ok` if and only if a `Null` is reached and every chunk before it is accepted |
| `Material.ErrIsReaderError` | src/support/material.rs:33 | `load` returns `Err` if and only if the reader fails before any chunk stops the loop. The error is then the reader's own, and no material is returned |
| `Material.NullEndsReading` | src/support/material.rs:45 | chunks after the first `Null`, and the reader's later failure, cannot change the outcome |
| `Material.HeaderMismatchAborts` | src/support/material.rs:46-50 | a header whose file type differs from the material file type, after accepted chunks only, aborts with that file type |
| `Material.UnhandledChunkAborts` | src/support/material.rs:51 | a chunk variant the loader does not handle, after accepted chunks only, aborts as unimplemented |
| `Material.LoadRecord` | src/support/material.rs:27-56 | accepted chunks followed by `Null` load to the default material overwritten, field by field, by the last chunk that writes each field |
| `Material.RepeatedDescLastWins` | src/support/material.rs:35-41 | with two `MaterialDesc` chunks, the second one's name and parameters win and the texture name is kept |
| `Material.EngineMaterial` | src/support/material.rs:27-56 | a header, `MaterialDesc("engine")`, `PixelmapRef("eng_tex")` and `Null` load to that name and texture name with an empty render-table name |
| `Texturizer.UpperChar` | texturizer.cpp:29 | C-locale `toupper`: `a` to `z` map to `A` to `Z`, and every other character is unchanged |
| `Texturizer.ToUpper` | texturizer.cpp:29 | the upper-cased name has the same length and no lower-case ASCII letter. Each lower-case letter becomes its own capital (code minus 32), and every other character is unchanged. Upper-casing an upper-case name leaves it unchanged |
| `Texturizer.InsertAllKeys` | texturizer.cpp:23-32 | after the loop, the keys are the old keys plus the upper-cased name of every pixelmap read |
| `Texturizer.AddedKeysUpper` | texturizer.cpp:28-30 | every key that `read` adds is upper-case |
| `Texturizer.InsertAllKeepsEntries` | texturizer.cpp:30-31 | every key present before the loop is still present and maps to the same entry |
| `Texturizer.InsertAllFirstWins` | texturizer.cpp:28-31 | a new key holds the first pixelmap read with that key, renamed to the key and not yet bound. Later duplicates are not added |
| `Texturizer.InsertAllNoNewKeys` | texturizer.cpp:30-31 | pixelmaps whose keys are all cached already leave the cache, and so its size, unchanged |
| `Texturizer.ReadTwice` | texturizer.cpp:17-37 | reading the same file a second time changes neither the result nor the cache |
| `Texturizer.ReadHeaderFails` | texturizer.cpp:19 | when the header check fails, `read` returns false and inserts nothing |
| `Texturizer.SetTextureSpec` | texturizer.cpp:45-78 | `set_texture` succeeds exactly when the name, used as given, is a key. It keeps the key set and every other entry. It keeps the entry's pixelmap and a nonzero texture name, and gives an unbound entry the newly generated name |
| `Texturizer.SetTextureIdempotent` | texturizer.cpp:54-77 | after one `set_texture`, a second one with the same name returns the same result and changes nothing: the bound name is reused |
| `Texturizer.SetTextureCaseSensitive` | texturizer.cpp:47-52 | a pixelmap read as "road" is cached as "ROAD", and `set_texture("road")` fails and changes nothing |
| `Texturizer.SetTextureKeepsNamesDistinct` | texturizer.cpp:60-63 | binding a name never handed out before keeps texture names distinct and below the generator's next name |
| `Texturizer.InsertKeepsNames` | texturizer.cpp:25-31 | a newly cached entry is unbound, so texture names stay distinct and below the generator's next name |
| `Texturizer.InsertAllKeepsNames` | texturizer.cpp:23-32 | the same holds after the whole loop of `read` |
| `Texturizer.GlTextureNames.GenTexture` | texturizer.cpp:63 | `glGenTextures` hands out a name that was never handed out before |
| `Texturizer.Texture.constructor` | include/texturizer.h:19 | a new texture is unbound (name 0) and holds an empty pixelmap |
| `Texturizer.TextureRenderer.constructor` | include/texturizer.h:34 | a new renderer has an empty cache and satisfies the invariant |
| `Texturizer.TextureRenderer.AddTexture` | texturizer.cpp:25-31 | one pass of `read`'s loop: the view becomes `Insert` of the old view, existing keys keep their texture objects, and the invariant holds |
| `Texturizer.TextureRenderer.Read` | texturizer.cpp:17-37 | `read` returns false and changes nothing when the header check fails. Otherwise it returns true and the cache is the old one with every pixelmap inserted in order. Existing keys keep their texture objects |
| `Texturizer.TextureRenderer.SetTexture` | texturizer.cpp:45-78 | the result and the new cache are `SetTextureSpec` of the old cache with the generator's next name. The generator advances by one exactly when a cached entry had no name yet, so a miss or an already bound entry changes no state. The key-to-texture map is unchanged and the invariant holds |
| `Texturizer.TextureRenderer.DrawTexture` | texturizer.cpp:81-103 | `draw_texture` returns exactly what `set_texture` returns, and changes the cache and the name generator exactly as it does. A failed draw changes no state |

## Left out

- `Chunk::load` (src/support/resource.rs) is not part of this model. The bytes, tags and payload layout of chunks are not modelled. The reader is only the sequence of chunks it yields, followed by its failure.
- The variants of `Chunk` other than the five the loader handles are not listed by name. They are one `Other(tag)` case.
- `MATERIAL_FILE_TYPE` is defined in a file that is not part of this model, so its value is left unspecified.
- The `f32` parameters are kept as their 32-bit patterns because they are only copied. The default parameters are the pattern of `+0.0`.
- `Material::load_from` is left out: it only opens the file, wraps it in a buffered reader and calls `load`.
- `resource_file_t::read_file_header`, `pixelmap_t::read` and `CHECK_READ` are not part of this model. A file is modelled as whether its header check succeeds, plus the pixelmaps its reads return.
- Only the texture-name generator behind `glGenTextures` is modelled. `glBindTexture`, `glTexImage2D`, `glTexParameteri`, `glEnable`, `glDisable` and the quad drawing in `draw_texture` are foreign graphics calls and are left out.
- The renderer holds the OpenGL context's name generator as a field (`gl`). In the source, that state is global.
- `GLuint` is an unbounded natural number. The 32-bit width of texture names, and running out of them, is not modelled.
- Pixelmap names are modelled as sequences of characters, while the source holds bytes in a `std::string`. Characters outside ASCII are assumed to be left unchanged by `toupper`. In C, `toupper` of a negative `char` (a byte of 0x80 or more where `char` is signed) is undefined, and the model does not capture that.
- The `printf` diagnostics and `dump_cache` produce output only and are left out.
- The failed-`new` check in `read` is left out, because allocation never fails in the model.
- The duplicate `texture_t` that `read` leaks is left out. It is a fresh object that the cache never references.
- `set_palette`, `reset_texture`, `dump_cache_textures` and the destructor are declared in include/texturizer.h but not defined in the sources modelled, so they are left out. The palette tables `alpha_tab`, `r_tab`, `g_tab` and `b_tab` are left out for the same reason.
- src/main.rs (logging, directory walk, PNG export, car loading, window and event loop) is input, output and user interface, and is left out.
