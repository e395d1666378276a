/**
 * The ingestion pipeline of `ClipboardMonitor` (clipboard_monitor.py) as a
 * state machine over the monitor's fields and the history store. Each
 * clipboard event is handled to completion before the next, as the single
 * Qt event loop delivers them. Hashing, PNG encoding, file existence,
 * image loading, the clock and the generated image file name are oracles
 * passed in through `Env`.
 */
module ClipboardMonitor {
  import opened Wrappers
  import opened PyStr
  import opened Categories
  import opened PathModel
  import opened Settings
  import opened AiClient
  import opened Categorizer
  import opened HistoryStore

  // ---------------------------------------------------------------------
  // State and environment
  // ---------------------------------------------------------------------

  /** A clipboard image; `NullImage` is a `QImage` whose `isNull()` holds. */
  datatype Image = NullImage | Raster(pixels: seq<int>)

  /** What `mimeData()` returns: nothing, or the formats it offers. */
  datatype Snapshot = NoMimeData | MimeData(image: Option<Image>, text: Option<string>)

  /**
   * The fields of a monitor: whether a clipboard is attached
   * (`_clipboard`), the last fingerprint seen (`_last_hash`), whether it is
   * monitoring, and whether it asks the AI adapter (`_use_ai`).
   */
  datatype Monitor = Monitor(attached: bool, lastHash: Option<string>, monitoring: bool, useAi: bool)

  /**
   * The answer of `Path.exists`: the path exists, it does not, or the call
   * raised (an OSError such as a name that is too long, which `exists`
   * passes on instead of answering false).
   */
  datatype PathCheck = Present | Absent | CheckFailed

  /** The monitor together with the history table it writes to. */
  datatype World = World(monitor: Monitor, store: Store)

  /**
   * Everything the pipeline consults but does not model: SHA-256 of the
   * UTF-8 text, SHA-256 of an image's PNG encoding, `Path.exists`, loading
   * an image file, the current time, the name the next saved image gets,
   * the settings table and the AI provider.
   */
  datatype Env = Env(
    textHash: string -> string,
    imageHash: Image -> string,
    fileExists: string -> PathCheck,
    loadImage: string -> Image,
    now: int,
    savedImagePath: string,
    settings: Settings,
    respond: Request -> Reply)

  /** The result of handling one event: the world after, and the id `history_added` carried, if emitted. */
  datatype Outcome = Outcome(world: World, emitted: Option<nat>)

  /** A monitor as constructed: nothing attached, no hash, AI use from the configured provider. */
  function NewMonitor(aiProvider: string): (m: Monitor)
    ensures !m.attached && !m.monitoring && m.lastHash.None?
    ensures m.useAi <==> aiProvider != "none"
  {
    Monitor(false, None, false, aiProvider != "none")
  }

  predicate Unchanged(w: World, r: Outcome) {
    r.world == w && r.emitted.None?
  }

  // ---------------------------------------------------------------------
  // Insert and notify
  // ---------------------------------------------------------------------

  /**
   * `if history_id:` — remember the fingerprint and emit the id when the
   * insert returned a true id; otherwise only the store's answer stands.
   */
  function Commit(w: World, added: Added, h: string): (r: Outcome)
    ensures r.world.store == added.store
    ensures r.emitted.Some? <==> added.id.Some? && added.id.value != 0
    ensures r.emitted.Some? ==> r.emitted == added.id && r.world.monitor == w.monitor.(lastHash := Some(h))
    ensures r.emitted.None? ==> r.world.monitor == w.monitor
  {
    if added.id.Some? && added.id.value != 0 then
      Outcome(World(w.monitor.(lastHash := Some(h)), added.store), added.id)
    else
      Outcome(World(w.monitor, added.store), None)
  }

  // ---------------------------------------------------------------------
  // _process_text
  // ---------------------------------------------------------------------

  /** Where an image-path text points: the decoded `file:///` path, or the text itself. */
  function ResolvedPath(t: string): (p: string)
    ensures StartsWith(t, FileScheme) ==> p == Unquote(t[|FileScheme|..])
    ensures !StartsWith(t, FileScheme) ==> p == t
  {
    ExtractFilePath(t).GetOr(t)
  }

  /**
   * The insert `_process_text` makes for new stripped text `t` of category
   * `cat`; `None` when the existence check raises, which ends the handler
   * before anything is inserted.
   */
  function InsertText(st: Store, t: string, h: string, cat: Category, env: Env): (r: Option<Added>)
    ensures r.None? <==> cat == Image && IsImageFile(t) && env.fileExists(ResolvedPath(t)) == CheckFailed
    ensures r.Some? ==> (HasHash(st, h) <==> r.value.id.None?)
    ensures r.Some? ==> HasHash(r.value.store, h)
    ensures r.Some? && Valid(st) ==> Valid(r.value.store)
  {
    if cat == Image && IsImageFile(t) then
      var path := ResolvedPath(t);
      match env.fileExists(path)
      case Present => Some(AddHistory(st, ImageContent, h, Image, Some(t), Some(path), env.now))
      case Absent => Some(AddHistory(st, TextContent, h, Url, Some(t), None, env.now))
      case CheckFailed => None
    else
      Some(AddHistory(st, TextContent, h, cat, Some(t), None, env.now))
  }

  /**
   * `_process_text`: strip; fingerprint; stop at the in-memory gate (same
   * hash as last time) or the store gate (hash already stored, which is
   * remembered); otherwise classify, insert and notify.
   */
  function ProcessText(w: World, text: string, env: Env): (r: Outcome)
    ensures AllSpace(text) ==> Unchanged(w, r)
    ensures w.monitor.lastHash == Some(env.textHash(Strip(text))) ==> Unchanged(w, r)
    ensures r.world.monitor.(lastHash := w.monitor.lastHash) == w.monitor
    ensures r.world.monitor.lastHash != w.monitor.lastHash ==>
              r.world.monitor.lastHash == Some(env.textHash(Strip(text)))
    ensures r.emitted.Some? ==> HasHash(r.world.store, env.textHash(Strip(text)))
    ensures Valid(w.store) ==> Valid(r.world.store)
  {
    var t := Strip(text);
    if t == [] then Outcome(w, None)
    else
      var h := env.textHash(t);
      if w.monitor.lastHash == Some(h) then Outcome(w, None)
      else if CheckHashExists(w.store, h) then
        Outcome(World(w.monitor.(lastHash := Some(h)), w.store), None)
      else
        var cat := Categorize(t, w.monitor.useAi, env.settings, env.respond).category;
        match InsertText(w.store, t, h, cat, env)
        case None => Outcome(w, None)
        case Some(added) => Commit(w, added, h)
  }

  // ---------------------------------------------------------------------
  // _process_image
  // ---------------------------------------------------------------------

  /**
   * `_process_image`: fingerprint the PNG encoding; the same two gates;
   * otherwise save the image under a fresh name and insert an image record.
   */
  function ProcessImage(w: World, img: Image, env: Env): (r: Outcome)
    ensures w.monitor.lastHash == Some(env.imageHash(img)) ==> Unchanged(w, r)
    ensures r.world.monitor.(lastHash := w.monitor.lastHash) == w.monitor
    ensures r.world.monitor.lastHash != w.monitor.lastHash ==>
              r.world.monitor.lastHash == Some(env.imageHash(img))
    ensures Valid(w.store) ==> Valid(r.world.store)
  {
    var h := env.imageHash(img);
    if w.monitor.lastHash == Some(h) then Outcome(w, None)
    else if CheckHashExists(w.store, h) then
      Outcome(World(w.monitor.(lastHash := Some(h)), w.store), None)
    else
      Commit(w, AddHistory(w.store, ImageContent, h, Image, None, Some(env.savedImagePath), env.now), h)
  }

  // ---------------------------------------------------------------------
  // _check_clipboard and the event source
  // ---------------------------------------------------------------------

  /**
   * `_check_clipboard`: an image that is not null wins over any text; text
   * is processed only when it is not blank.
   */
  function CheckClipboard(w: World, snap: Snapshot, env: Env): (r: Outcome)
    ensures !w.monitor.attached || snap.NoMimeData? ==> Unchanged(w, r)
    ensures w.monitor.attached && snap.MimeData? && snap.image.Some? && snap.image.value != NullImage ==>
              r == ProcessImage(w, snap.image.value, env)
    ensures (snap.MimeData? && (snap.image.None? || snap.image.value == NullImage)
             && (snap.text.None? || AllSpace(snap.text.value))) ==> Unchanged(w, r)
    ensures w.monitor.attached && snap.MimeData? && (snap.image.None? || snap.image.value == NullImage)
            && snap.text.Some? && !AllSpace(snap.text.value) ==>
              r == ProcessText(w, snap.text.value, env)
    ensures Valid(w.store) ==> Valid(r.world.store)
  {
    if !w.monitor.attached then Outcome(w, None)
    else match snap
      case NoMimeData => Outcome(w, None)
      case MimeData(image, text) =>
        if image.Some? && image.value != NullImage then ProcessImage(w, image.value, env)
        else if text.Some? && text.value != [] && Strip(text.value) != [] then ProcessText(w, text.value, env)
        else Outcome(w, None)
  }

  /**
   * A clipboard change or timer tick: both are delivered only while
   * monitoring, as `stop` stops the timer and disconnects the signal.
   */
  function OnClipboardEvent(w: World, snap: Snapshot, env: Env): (r: Outcome)
    ensures !w.monitor.monitoring ==> Unchanged(w, r)
    ensures w.monitor.monitoring ==> r == CheckClipboard(w, snap, env)
    ensures Valid(w.store) ==> Valid(r.world.store)
  {
    if w.monitor.monitoring then CheckClipboard(w, snap, env) else Outcome(w, None)
  }

  // ---------------------------------------------------------------------
  // start / stop / set_use_ai
  // ---------------------------------------------------------------------

  /** The result of `start`: the outcome, or the RuntimeError raised without an application. */
  datatype Started = Started(outcome: Outcome) | NoApplication

  /**
   * `start`: nothing when already monitoring; an error when there is no
   * application; otherwise attach, start monitoring and check once.
   */
  function Start(w: World, hasApplication: bool, snap: Snapshot, env: Env): (r: Started)
    ensures w.monitor.monitoring ==> r == Started(Outcome(w, None))
    ensures !w.monitor.monitoring && !hasApplication ==> r.NoApplication?
    ensures r.Started? ==> r.outcome.world.monitor.monitoring
    ensures !w.monitor.monitoring && r.Started? ==> r.outcome.world.monitor.attached
    ensures !w.monitor.monitoring && hasApplication ==>
              r == Started(CheckClipboard(w.(monitor := w.monitor.(attached := true, monitoring := true)), snap, env))
  {
    if w.monitor.monitoring then Started(Outcome(w, None))
    else if !hasApplication then NoApplication
    else
      var w' := w.(monitor := w.monitor.(attached := true, monitoring := true));
      Started(CheckClipboard(w', snap, env))
  }

  /** `stop`: monitoring ends; the clipboard stays attached. */
  function Stop(m: Monitor): (r: Monitor)
    ensures !r.monitoring
    ensures r.(monitoring := m.monitoring) == m
  {
    if !m.monitoring then m else m.(monitoring := false)
  }

  /** `set_use_ai`. */
  function SetUseAi(m: Monitor, useAi: bool): (r: Monitor)
    ensures r.useAi == useAi && r.(useAi := m.useAi) == m
  {
    m.(useAi := useAi)
  }

  // ---------------------------------------------------------------------
  // copy_to_clipboard
  // ---------------------------------------------------------------------

  /** What a successful copy puts on the clipboard. */
  datatype Clip = TextClip(text: string) | ImageClip(image: Image)

  /** The result of `copy_to_clipboard`: the monitor after, the returned flag, and what was copied. */
  datatype Copied = Copied(monitor: Monitor, ok: bool, clip: Option<Clip>)

  /**
   * `copy_to_clipboard`: puts non-empty text, or an image file that loads,
   * on the clipboard and remembers its fingerprint so the echo is ignored.
   */
  function CopyToClipboard(m: Monitor, contentType: string, content: Option<string>,
                           imagePath: Option<string>, env: Env): (r: Copied)
    ensures !m.attached ==> r == Copied(m, false, None)
    ensures r.ok <==> r.clip.Some?
    ensures !r.ok ==> r.monitor == m
    ensures r.monitor.(lastHash := m.lastHash) == m
    ensures r.clip.Some? && r.clip.value.TextClip? ==>
              contentType == "text" && r.monitor.lastHash == Some(env.textHash(r.clip.value.text))
    ensures r.clip.Some? && r.clip.value.ImageClip? ==>
              contentType == "image" && r.clip.value.image != NullImage
              && r.monitor.lastHash == Some(env.imageHash(r.clip.value.image))
    ensures m.attached && contentType == "text" && content.Some? && content.value != [] ==>
              r == Copied(m.(lastHash := Some(env.textHash(content.value))), true, Some(TextClip(content.value)))
    ensures m.attached && contentType == "image" && imagePath.Some? && imagePath.value != [] ==>
              (r.ok <==> env.loadImage(imagePath.value) != NullImage)
              && (r.ok ==> r.clip == Some(ImageClip(env.loadImage(imagePath.value))))
    ensures (!(contentType == "text" && content.Some? && content.value != [])
             && !(contentType == "image" && imagePath.Some? && imagePath.value != [])) ==> !r.ok
  {
    if !m.attached then Copied(m, false, None)
    else if contentType == "text" && content.Some? && content.value != [] then
      Copied(m.(lastHash := Some(env.textHash(content.value))), true, Some(TextClip(content.value)))
    else if contentType == "image" && imagePath.Some? && imagePath.value != [] then
      var img := env.loadImage(imagePath.value);
      if img != NullImage then
        Copied(m.(lastHash := Some(env.imageHash(img))), true, Some(ImageClip(img)))
      else
        Copied(m, false, None)
    else
      Copied(m, false, None)
  }

  // ---------------------------------------------------------------------
  // Properties of the pipeline
  // ---------------------------------------------------------------------

  /** The fingerprint `_process_text` computes: of the stripped text. */
  function TextKey(text: string, env: Env): string {
    env.textHash(Strip(text))
  }

  /** Text that gets past both gates: not blank, not the last hash, not yet stored. */
  predicate PassesGates(w: World, text: string, env: Env) {
    !AllSpace(text) && w.monitor.lastHash != Some(TextKey(text, env)) && !HasHash(w.store, TextKey(text, env))
  }

  /** New text whose image path makes `Path.exists` raise: the handler ends there. */
  predicate ExistsCheckRaises(w: World, text: string, env: Env) {
    && CategoryOf(w, text, env) == Image && IsImageFile(Strip(text))
    && env.fileExists(ResolvedPath(Strip(text))) == CheckFailed
  }

  /** The category `_process_text` computes for `text`. */
  function CategoryOf(w: World, text: string, env: Env): Category {
    Categorize(Strip(text), w.monitor.useAi, env.settings, env.respond).category
  }

  /**
   * The store gate: a fingerprint already stored is remembered as the last
   * hash, and nothing is inserted or emitted.
   */
  lemma StoreGate(w: World, text: string, env: Env)
    requires !AllSpace(text) && w.monitor.lastHash != Some(TextKey(text, env))
    requires HasHash(w.store, TextKey(text, env))
    ensures ProcessText(w, text, env)
            == Outcome(World(w.monitor.(lastHash := Some(TextKey(text, env))), w.store), None)
  {
  }

  /** The store gate for images: a stored fingerprint is remembered, nothing is inserted. */
  lemma ImageStoreGate(w: World, img: Image, env: Env)
    requires w.monitor.lastHash != Some(env.imageHash(img)) && HasHash(w.store, env.imageHash(img))
    ensures ProcessImage(w, img, env)
            == Outcome(World(w.monitor.(lastHash := Some(env.imageHash(img))), w.store), None)
  {
  }

  /**
   * New text is inserted as the next row, the last hash becomes its
   * fingerprint, and its id is emitted. The row holds the stripped text; an
   * `image` text whose file exists becomes an image row under the resolved
   * path, one whose file is missing a `url` row, and any other text a text
   * row of its category.
   */
  lemma NewTextInserted(w: World, text: string, env: Env)
    requires Valid(w.store) && PassesGates(w, text, env) && !ExistsCheckRaises(w, text, env)
    ensures var r := ProcessText(w, text, env);
            && r.emitted == Some(w.store.nextId)
            && r.world.monitor == w.monitor.(lastHash := Some(TextKey(text, env)))
            && |r.world.store.records| == |w.store.records| + 1
            && r.world.store.records[..|w.store.records|] == w.store.records
    ensures var r := ProcessText(w, text, env);
            var t, h, cat, n := Strip(text), TextKey(text, env), CategoryOf(w, text, env), w.store.nextId;
            var x := r.world.store.records[|w.store.records|];
            && (cat == Image && env.fileExists(ResolvedPath(t)) == Present ==>
                  x == Record(n, ImageContent, Some(t), Some(ResolvedPath(t)), h, Image, false, env.now))
            && (cat == Image && env.fileExists(ResolvedPath(t)) == Absent ==>
                  x == Record(n, TextContent, Some(t), None, h, Url, false, env.now))
            && (cat != Image ==> x == Record(n, TextContent, Some(t), None, h, cat, false, env.now))
  {
    var t := Strip(text);
    var h := env.textHash(t);
    var cat := CategoryOf(w, text, env);
    if cat == Image {
      ImageCategoryIsImageFile(t, w.monitor.useAi, env);
    }
    var added := InsertText(w.store, t, h, cat, env);
    assert added.Some?;
    assert ProcessText(w, text, env) == Commit(w, added.value, h);
    InsertTextRow(w.store, t, h, cat, env);
  }

  /** When the existence check raises, nothing is stored, emitted or remembered. */
  lemma ExistsCheckFailureIgnored(w: World, text: string, env: Env)
    requires PassesGates(w, text, env) && ExistsCheckRaises(w, text, env)
    ensures ProcessText(w, text, env) == Outcome(w, None)
  {
  }

  /** Whatever branch `_process_text` takes, the new row is the next id with the text and its hash. */
  lemma InsertTextRow(st: Store, t: string, h: string, cat: Category, env: Env)
    requires Valid(st) && !HasHash(st, h)
    requires InsertText(st, t, h, cat, env).Some?
    ensures var r := InsertText(st, t, h, cat, env).value;
            && r.id == Some(st.nextId) && r.store.nextId == st.nextId + 1
            && |r.store.records| == |st.records| + 1
            && r.store.records[..|st.records|] == st.records
            && var x := r.store.records[|st.records|];
               && x.id == st.nextId && x.hash == h && x.content == Some(t)
               && !x.isFavorite && x.createdAt == env.now
               && (cat == Image && env.fileExists(ResolvedPath(t)) == Present && IsImageFile(t) ==>
                     x.contentType == ImageContent && x.category == Image && x.imagePath == Some(ResolvedPath(t)))
               && (cat == Image && env.fileExists(ResolvedPath(t)) == Absent && IsImageFile(t) ==>
                     x.contentType == TextContent && x.category == Url && x.imagePath.None?)
               && (cat != Image ==> x.contentType == TextContent && x.category == cat && x.imagePath.None?)
  {
  }

  /**
   * Text classified `image` whose resolved path exists is stored as an
   * image row: the original text as content, the path as `image_path`.
   */
  lemma ImagePathStoredAsImage(st: Store, t: string, h: string, useAi: bool, env: Env)
    requires !HasHash(st, h) && IsTrimmed(t)
    requires Categorize(t, useAi, env.settings, env.respond).category == Image
    requires env.fileExists(ResolvedPath(t)) == Present
    ensures var r := InsertText(st, t, h, Categorize(t, useAi, env.settings, env.respond).category, env);
            r.Some? && r.value.store.records == st.records
              + [Record(st.nextId, ImageContent, Some(t), Some(ResolvedPath(t)), h, Image, false, env.now)]
  {
    ImageCategoryIsImageFile(t, useAi, env);
  }

  /** Text classified `image` whose file does not exist is downgraded to a `url` text row. */
  lemma MissingImageStoredAsUrl(st: Store, t: string, h: string, useAi: bool, env: Env)
    requires !HasHash(st, h) && IsTrimmed(t)
    requires Categorize(t, useAi, env.settings, env.respond).category == Image
    requires env.fileExists(ResolvedPath(t)) == Absent
    ensures var r := InsertText(st, t, h, Categorize(t, useAi, env.settings, env.respond).category, env);
            r.Some? && r.value.store.records == st.records + [Record(st.nextId, TextContent, Some(t), None, h, Url, false, env.now)]
  {
    ImageCategoryIsImageFile(t, useAi, env);
  }

  /** Any other text is a text row with the category `categorize` gave. */
  lemma OtherTextStoredAsCategorized(st: Store, t: string, h: string, cat: Category, env: Env)
    requires !HasHash(st, h) && cat != Image
    ensures var r := InsertText(st, t, h, cat, env);
            r.Some? && r.value.store.records == st.records + [Record(st.nextId, TextContent, Some(t), None, h, cat, false, env.now)]
  {
  }

  /**
   * The second test of `category == "image" and is_image_file(text)` never
   * decides anything: on stripped text, `categorize` says `image` only for
   * image files.
   */
  lemma ImageCategoryIsImageFile(t: string, useAi: bool, env: Env)
    requires IsTrimmed(t)
    requires Categorize(t, useAi, env.settings, env.respond).category == Image
    ensures IsImageFile(t)
  {
    StripTrimmed(t);
  }

  /** A notification goes out exactly when the store gained a row. */
  lemma EmitsExactlyWhenStored(w: World, text: string, env: Env)
    requires Valid(w.store)
    ensures var r := ProcessText(w, text, env);
            r.emitted.Some? <==> |r.world.store.records| == |w.store.records| + 1
    ensures var r := ProcessText(w, text, env);
            r.emitted.None? ==> r.world.store == w.store
  {
    if PassesGates(w, text, env) && !ExistsCheckRaises(w, text, env) {
      NewTextInserted(w, text, env);
    }
  }

  /**
   * The same text handled twice in a row gives one row and one
   * notification: the second time it stops at the in-memory gate.
   */
  lemma SameTextTwice(w: World, text: string, env: Env)
    requires Valid(w.store)
    ensures var r1 := ProcessText(w, text, env);
            ProcessText(r1.world, text, env) == Outcome(r1.world, None)
  {
    if PassesGates(w, text, env) && !ExistsCheckRaises(w, text, env) {
      NewTextInserted(w, text, env);
    }
  }

  /** The same image handled twice in a row is stored once. */
  lemma SameImageTwice(w: World, img: Image, env: Env)
    requires Valid(w.store)
    ensures var r1 := ProcessImage(w, img, env);
            ProcessImage(r1.world, img, env) == Outcome(r1.world, None)
  {
    var h := env.imageHash(img);
    var r1 := ProcessImage(w, img, env);
    if w.monitor.lastHash != Some(h) && !CheckHashExists(w.store, h) {
      var added := AddHistory(w.store, ImageContent, h, Image, None, Some(env.savedImagePath), env.now);
      assert added.id == Some(w.store.nextId);
      assert r1.emitted.Some?;
    }
    assert r1.world.monitor.lastHash == Some(h);
  }

  /** A new image is saved and stored as an image row under the saved file's path. */
  lemma NewImageInserted(w: World, img: Image, env: Env)
    requires Valid(w.store)
    requires w.monitor.lastHash != Some(env.imageHash(img)) && !HasHash(w.store, env.imageHash(img))
    ensures var r := ProcessImage(w, img, env);
            && r.emitted == Some(w.store.nextId)
            && r.world.monitor.lastHash == Some(env.imageHash(img))
            && r.world.store.records == w.store.records
               + [Record(w.store.nextId, ImageContent, None, Some(env.savedImagePath),
                         env.imageHash(img), Image, false, env.now)]
  {
  }

  /**
   * Copying trimmed text out makes its own clipboard event a no-op: the
   * echo hits the in-memory gate.
   */
  lemma TextCopyEchoIgnored(m: Monitor, st: Store, content: string, env: Env)
    requires m.attached && content != [] && IsTrimmed(content)
    ensures var c := CopyToClipboard(m, "text", Some(content), None, env);
            && c.ok
            && var w := World(c.monitor, st);
               Unchanged(w, CheckClipboard(w, MimeData(None, Some(content)), env))
  {
    StripTrimmed(content);
  }

  /** Copying an image out makes the clipboard event carrying it a no-op. */
  lemma ImageCopyEchoIgnored(m: Monitor, st: Store, path: string, text: Option<string>, env: Env)
    requires m.attached && path != [] && env.loadImage(path) != NullImage
    ensures var c := CopyToClipboard(m, "image", None, Some(path), env);
            && c.ok
            && var w := World(c.monitor, st);
               Unchanged(w, CheckClipboard(w, MimeData(Some(env.loadImage(path)), text), env))
  {
  }

  /** Stopping twice is stopping once, and a stopped monitor ignores every event. */
  lemma StopIgnoresEvents(w: World, snap: Snapshot, env: Env)
    ensures Stop(Stop(w.monitor)) == Stop(w.monitor)
    ensures var s := w.(monitor := Stop(w.monitor));
            Unchanged(s, OnClipboardEvent(s, snap, env))
  {
  }
}
