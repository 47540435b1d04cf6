/**
 * The settings object the integration service assembles for
 * `window.H5PIntegration`: the core and editor asset URLs with their cache
 * buster, the user-dependent core settings, the editor settings and one
 * entry per displayed content. Configuration, the static asset lists of
 * H5PCore and H5peditor, the option values, the current user and the
 * stored contents are inputs, bundled in `Env`.
 */
module Integration {
  import opened Paths
  import opened Storage
  import opened ContentModel

  /** Configured public folder and its subfolders, and the installed package version. */
  datatype Config = Config(publicFolderUrl: string, coreFolder: string, editorFolder: string, installedVersion: string)

  /** `H5PCore::$scripts`, `H5PCore::$styles`, `H5peditor::$scripts`, `H5peditor::$styles`. */
  datatype StaticAssets = StaticAssets(coreScripts: seq<string>, coreStyles: seq<string>, editorScripts: seq<string>, editorStyles: seq<string>)

  /**
   * The options the service reads, already evaluated as PHP does: the
   * truthiness of `track_user` and `save_content_state`, the value of
   * `save_content_frequency`, and whether `hub_is_enabled` and
   * `enable_lrs_content_types` compare equal to 1.
   */
  datatype Options = Options(trackUser: bool, saveContentState: bool, saveContentFrequency: int, hubIsEnabled: bool, lrsContentTypes: bool)

  /** The current Neos user: full name and electronic addresses in order. */
  datatype User = User(fullName: string, addresses: seq<string>)

  /** One saved user-data row of the current user for a content. */
  datatype UserDataRow = UserDataRow(subContentId: int, dataId: string, data: string)

  /** An asset file as `getDependenciesFiles` lists it. */
  datatype AssetFile = AssetFile(path: string, version: string)

  /**
   * A content as the repository finds it: its `toAssocArray()`, what
   * H5PCore renders for it (library string, display options, dependency
   * files), and the current user's saved rows for it.
   */
  datatype StoredContent = StoredContent(
    assoc: ContentArray, libraryString: string, displayOptions: string,
    scriptFiles: seq<AssetFile>, styleFiles: seq<AssetFile>, userRows: seq<UserDataRow>)

  datatype Env = Env(
    config: Config, assets: StaticAssets, options: Options, baseUri: string,
    currentUser: Option<User>, stored: map<int, StoredContent>)

  // ---------------------------------------------------------------- cache buster and URLs

  /** `getCacheBuster()`: the query string that carries the installed version. */
  function CacheBuster(cfg: Config): (r: string)
    ensures |r| == 3 + |cfg.installedVersion| && r[..3] == "?v=" && r[3..] == cfg.installedVersion
  {
    "?v=" + cfg.installedVersion
  }

  /** Reads the version back out of a cache-buster query string. */
  function VersionOf(q: string): Option<string>
  {
    if |q| >= 3 && q[..3] == "?v=" then Some(q[3..]) else None
  }

  /** The cache buster carries exactly the installed version, so different versions never share one. */
  lemma CacheBusterCarriesVersion(cfg: Config, other: Config)
    ensures VersionOf(CacheBuster(cfg)) == Some(cfg.installedVersion)
    ensures CacheBuster(cfg) == CacheBuster(other) ==> cfg.installedVersion == other.installedVersion
  {
    assert CacheBuster(cfg)[3..] == cfg.installedVersion;
  }

  /** `<public url><folder>/<name><suffix>` */
  function AssetUrl(base: string, folder: string, name: string, suffix: string): string
  {
    base + folder + "/" + name + suffix
  }

  /** One URL per name, in the order of the names. */
  function Urls(base: string, folder: string, names: seq<string>, suffix: string): (r: seq<string>)
    ensures |r| == |names|
    ensures forall i :: 0 <= i < |names| ==> r[i] == AssetUrl(base, folder, names[i], suffix)
  {
    if names == [] then [] else [AssetUrl(base, folder, names[0], suffix)] + Urls(base, folder, names[1..], suffix)
  }

  /** The name inside a URL built by `AssetUrl` with the same base, folder and suffix. */
  function NameOfUrl(base: string, folder: string, suffix: string, url: string): string
  {
    var start := |base| + |folder| + 1;
    if start <= |url| - |suffix| then url[start..|url| - |suffix|] else ""
  }

  /** Every URL gives back its name, so the URL list determines the name list. */
  lemma UrlsDetermineNames(base: string, folder: string, suffix: string, a: seq<string>, b: seq<string>)
    ensures forall i :: 0 <= i < |a| ==> NameOfUrl(base, folder, suffix, Urls(base, folder, a, suffix)[i]) == a[i]
    ensures Urls(base, folder, a, suffix) == Urls(base, folder, b, suffix) ==> a == b
  {
    forall i | 0 <= i < |a|
      ensures NameOfUrl(base, folder, suffix, Urls(base, folder, a, suffix)[i]) == a[i]
    {
      var u := AssetUrl(base, folder, a[i], suffix);
      assert u[|base| + |folder| + 1..|u| - |suffix|] == a[i];
    }
    if Urls(base, folder, a, suffix) == Urls(base, folder, b, suffix) {
      forall i | 0 <= i < |b|
        ensures NameOfUrl(base, folder, suffix, Urls(base, folder, b, suffix)[i]) == b[i]
      {
        var u := AssetUrl(base, folder, b[i], suffix);
        assert u[|base| + |folder| + 1..|u| - |suffix|] == b[i];
      }
    }
  }

  lemma {:induction false} UrlsAppend(base: string, folder: string, names: seq<string>, name: string, suffix: string)
    ensures Urls(base, folder, names + [name], suffix) == Urls(base, folder, names, suffix) + [AssetUrl(base, folder, name, suffix)]
  {
  }

  /** The loop the four URL builders share: append one URL per name. */
  method BuildUrls(base: string, folder: string, names: seq<string>, suffix: string) returns (urls: seq<string>)
    ensures urls == Urls(base, folder, names, suffix)
  {
    urls := [];
    for i := 0 to |names|
      invariant urls == Urls(base, folder, names[..i], suffix)
    {
      UrlsAppend(base, folder, names[..i], names[i], suffix);
      assert names[..i + 1] == names[..i] + [names[i]];
      urls := urls + [AssetUrl(base, folder, names[i], suffix)];
    }
    assert names[..|names|] == names;
  }

  function CoreScriptUrls(env: Env): seq<string>
  {
    Urls(env.config.publicFolderUrl, env.config.coreFolder, env.assets.coreScripts, CacheBuster(env.config))
  }

  function CoreStyleUrls(env: Env): seq<string>
  {
    Urls(env.config.publicFolderUrl, env.config.coreFolder, env.assets.coreStyles, CacheBuster(env.config))
  }

  function EditorStyleUrls(env: Env): seq<string>
  {
    Urls(env.config.publicFolderUrl, env.config.editorFolder, env.assets.editorStyles, CacheBuster(env.config))
  }

  /** `getRelativeCoreScriptUrls()` */
  method GetRelativeCoreScriptUrls(env: Env) returns (urls: seq<string>)
    ensures urls == CoreScriptUrls(env)
  {
    urls := BuildUrls(env.config.publicFolderUrl, env.config.coreFolder, env.assets.coreScripts, CacheBuster(env.config));
  }

  /** `getRelativeCoreStyleUrls()` */
  method GetRelativeCoreStyleUrls(env: Env) returns (urls: seq<string>)
    ensures urls == CoreStyleUrls(env)
  {
    urls := BuildUrls(env.config.publicFolderUrl, env.config.coreFolder, env.assets.coreStyles, CacheBuster(env.config));
  }

  /** `getRelativeEditorStyleUrls()` */
  method GetRelativeEditorStyleUrls(env: Env) returns (urls: seq<string>)
    ensures urls == EditorStyleUrls(env)
  {
    urls := BuildUrls(env.config.publicFolderUrl, env.config.editorFolder, env.assets.editorStyles, CacheBuster(env.config));
  }

  // ---------------------------------------------------------------- editor scripts

  /** The editor script that creates the editor iframe; loading it inside the iframe would nest iframes forever. */
  const IframeCreator: string := "scripts/h5peditor-editor.js"

  /** `sub` occurs in `s` starting at index `i`. */
  predicate OccursAt(s: string, sub: string, i: int)
  {
    0 <= i && i + |sub| <= |s| && s[i..i + |sub|] == sub
  }

  lemma OccursShift(s: string, sub: string, j: int)
    requires |s| >= 1 && 0 <= j
    ensures OccursAt(s[1..], sub, j) <==> OccursAt(s, sub, j + 1)
  {
    if 0 <= j && j + |sub| <= |s| - 1 {
      assert s[1..][j..j + |sub|] == s[j + 1..j + 1 + |sub|];
    }
  }

  /** `strpos($s, $sub) !== false` */
  function Contains(s: string, sub: string): (r: bool)
    ensures r <==> exists i :: OccursAt(s, sub, i)
  {
    if |s| < |sub| then false
    else if s[..|sub|] == sub then assert OccursAt(s, sub, 0); true
    else
      var r := Contains(s[1..], sub);
      assert r <==> exists i :: OccursAt(s, sub, i) by {
        if r {
          var j :| OccursAt(s[1..], sub, j);
          OccursShift(s, sub, j);
        }
        if exists i :: OccursAt(s, sub, i) {
          var i :| OccursAt(s, sub, i);
          OccursShift(s, sub, i - 1);
        }
      }
      r
  }

  /** The editor scripts that are loaded: every one not naming the iframe creator, in order. */
  function Kept(scripts: seq<string>): (r: seq<string>)
    ensures |r| <= |scripts|
    ensures forall x :: x in r <==> x in scripts && !Contains(x, IframeCreator)
  {
    if scripts == [] then []
    else (if Contains(scripts[0], IframeCreator) then [] else [scripts[0]]) + Kept(scripts[1..])
  }

  /** Filtering keeps the order: it distributes over concatenation. */
  lemma {:induction false} KeptAppend(a: seq<string>, b: seq<string>)
    ensures Kept(a + b) == Kept(a) + Kept(b)
  {
    if a == [] {
      assert a + b == b;
    } else {
      assert (a + b)[0] == a[0];
      assert (a + b)[1..] == a[1..] + b;
      KeptAppend(a[1..], b);
    }
  }

  /** One more script either extends the kept list by itself or leaves it as it was. */
  lemma KeptStep(scripts: seq<string>, i: int)
    requires 0 <= i < |scripts|
    ensures Kept(scripts[..i + 1]) == Kept(scripts[..i]) + (if Contains(scripts[i], IframeCreator) then [] else [scripts[i]])
  {
    assert scripts[..i + 1] == scripts[..i] + [scripts[i]];
    KeptAppend(scripts[..i], [scripts[i]]);
    assert [scripts[i]][1..] == [];
  }

  /** The language script appended last; it carries no cache buster. */
  function LanguageUrl(cfg: Config): string
  {
    cfg.publicFolderUrl + cfg.editorFolder + "/language/en.js"
  }

  function EditorScriptUrls(env: Env): seq<string>
  {
    Urls(env.config.publicFolderUrl, env.config.editorFolder, Kept(env.assets.editorScripts), CacheBuster(env.config))
    + [LanguageUrl(env.config)]
  }

  /** The editor scripts that are loaded: the script is listed and does not name the iframe creator. */
  predicate Loaded(env: Env, s: string)
  {
    s in env.assets.editorScripts && !Contains(s, IframeCreator)
  }

  function EditorAssetUrl(env: Env, s: string): string
  {
    AssetUrl(env.config.publicFolderUrl, env.config.editorFolder, s, CacheBuster(env.config))
  }

  /**
   * The editor script list: one URL with cache buster for every script that
   * does not name the iframe creator, and for no other, in input order, then
   * the English language script.
   */
  lemma EditorScriptUrlsShape(env: Env)
    ensures var urls := EditorScriptUrls(env);
      && |urls| == |Kept(env.assets.editorScripts)| + 1
      && urls[|urls| - 1] == LanguageUrl(env.config)
      && (forall s :: Loaded(env, s) ==> EditorAssetUrl(env, s) in urls[..|urls| - 1])
      && (forall i :: 0 <= i < |urls| - 1 ==> exists s :: Loaded(env, s) && urls[i] == EditorAssetUrl(env, s))
  {
    EditorScriptUrlsFront(env);
    EveryLoadedScriptHasUrl(env);
    EveryUrlIsLoadedScript(env);
  }

  /** The URLs before the language script are those of the kept scripts. */
  lemma EditorScriptUrlsFront(env: Env)
    ensures var urls := EditorScriptUrls(env);
      && |urls| == |Kept(env.assets.editorScripts)| + 1
      && urls[..|urls| - 1] == Urls(env.config.publicFolderUrl, env.config.editorFolder, Kept(env.assets.editorScripts), CacheBuster(env.config))
  {
  }

  lemma EveryLoadedScriptHasUrl(env: Env)
    ensures var urls := EditorScriptUrls(env);
      forall s :: Loaded(env, s) ==> EditorAssetUrl(env, s) in urls[..|urls| - 1]
  {
    var kept := Kept(env.assets.editorScripts);
    var urls := EditorScriptUrls(env);
    EditorScriptUrlsFront(env);
    var front := urls[..|urls| - 1];
    forall s | Loaded(env, s)
      ensures EditorAssetUrl(env, s) in front
    {
      assert s in kept;
      var i :| 0 <= i < |kept| && kept[i] == s;
      assert front[i] == EditorAssetUrl(env, s);
    }
  }

  lemma EveryUrlIsLoadedScript(env: Env)
    ensures var urls := EditorScriptUrls(env);
      forall i :: 0 <= i < |urls| - 1 ==> exists s :: Loaded(env, s) && urls[i] == EditorAssetUrl(env, s)
  {
    var kept := Kept(env.assets.editorScripts);
    var urls := EditorScriptUrls(env);
    EditorScriptUrlsFront(env);
    forall i | 0 <= i < |urls| - 1
      ensures exists s :: Loaded(env, s) && urls[i] == EditorAssetUrl(env, s)
    {
      assert urls[i] == urls[..|urls| - 1][i];
      assert kept[i] in kept;
      assert Loaded(env, kept[i]);
    }
  }

  /** `getRelativeEditorScriptUrls()` */
  method GetRelativeEditorScriptUrls(env: Env) returns (urls: seq<string>)
    ensures urls == EditorScriptUrls(env)
  {
    var scripts := env.assets.editorScripts;
    var base, folder, buster := env.config.publicFolderUrl, env.config.editorFolder, CacheBuster(env.config);
    urls := [];
    for i := 0 to |scripts|
      invariant urls == Urls(base, folder, Kept(scripts[..i]), buster)
    {
      KeptStep(scripts, i);
      if Contains(scripts[i], IframeCreator) {
        continue;
      }
      UrlsAppend(base, folder, Kept(scripts[..i]), scripts[i], buster);
      urls := urls + [AssetUrl(base, folder, scripts[i], buster)];
    }
    assert scripts[..|scripts|] == scripts;
    urls := urls + [LanguageUrl(env.config)];
  }

  // ---------------------------------------------------------------- editor settings

  datatype EditorSettings = EditorSettings(
    filesPath: string, fileIconPath: string, fileIconWidth: int, fileIconHeight: int,
    ajaxPath: string, libraryUrl: string, css: seq<string>, js: seq<string>, nodeVersionId: Option<int>)

  /**
   * `generateEditorSettings`: `editorAjaxAction` is the absolute URI the
   * URI builder produces for the editor AJAX controller; `contentId` is -1
   * when no content is being edited.
   */
  method GenerateEditorSettings(env: Env, editorAjaxAction: string, contentId: int) returns (s: EditorSettings)
    ensures s.css == CoreStyleUrls(env) + EditorStyleUrls(env)
    ensures s.js == CoreScriptUrls(env) + EditorScriptUrls(env)
    ensures s.nodeVersionId.Some? <==> contentId != -1
    ensures s.nodeVersionId.Some? ==> s.nodeVersionId.value == contentId
    ensures s.filesPath == env.config.publicFolderUrl + "editor"
    ensures s.fileIconPath == env.config.publicFolderUrl + env.config.editorFolder + "/images/binary-file.png"
    ensures s.fileIconWidth == 50 && s.fileIconHeight == 50
    ensures s.ajaxPath == editorAjaxAction + "/"
    ensures s.libraryUrl == env.baseUri + env.config.publicFolderUrl + env.config.editorFolder
  {
    var coreStyles := GetRelativeCoreStyleUrls(env);
    var editorStyles := GetRelativeEditorStyleUrls(env);
    var coreScripts := GetRelativeCoreScriptUrls(env);
    var editorScripts := GetRelativeEditorScriptUrls(env);
    s := EditorSettings(
      env.config.publicFolderUrl + "editor",
      env.config.publicFolderUrl + env.config.editorFolder + "/images/binary-file.png", 50, 50,
      editorAjaxAction + "/",
      env.baseUri + env.config.publicFolderUrl + env.config.editorFolder,
      coreStyles + editorStyles, coreScripts + editorScripts, None);
    if contentId != -1 {
      s := s.(nodeVersionId := Some(contentId));
    }
  }

  // ---------------------------------------------------------------- user data

  /** Saved user data by sub-content id and data id. */
  type UserData = map<int, map<string, string>>

  /** `[0 => ['state' => '{}']]` */
  function DefaultUserData(): UserData
  {
    map[0 := map["state" := "{}"]]
  }

  /**
   * `getContentUserData`, as written: the loop stores each row into a local
   * `$settings` that is never returned, so the result is always the
   * default, whatever rows exist.
   */
  method GetContentUserData(rows: seq<UserDataRow>) returns (r: UserData)
    ensures r == DefaultUserData()
  {
    var userDataArray := DefaultUserData();
    var settings: UserData := map[];
    for i := 0 to |rows|
    {
      var row := rows[i];
      var inner := if row.subContentId in settings then settings[row.subContentId] else map[];
      settings := settings[row.subContentId := inner[row.dataId := row.data]];
    }
    r := userDataArray;
  }

  /** One row written into the preloaded data: `$data[$subContentId][$dataId] = $data`. */
  function WithRow(d: UserData, row: UserDataRow): UserData
  {
    var inner := if row.subContentId in d then d[row.subContentId] else map[];
    d[row.subContentId := inner[row.dataId := row.data]]
  }

  /** The default with every row written over it, in order. */
  function Preloaded(rows: seq<UserDataRow>): UserData
  {
    if rows == [] then DefaultUserData() else WithRow(Preloaded(rows[..|rows| - 1]), rows[|rows| - 1])
  }

  /** Some row has this sub-content id and data id. */
  predicate HasRow(rows: seq<UserDataRow>, sub: int, id: string)
  {
    exists i :: 0 <= i < |rows| && rows[i].subContentId == sub && rows[i].dataId == id
  }

  /** The row is the last one with its sub-content id and data id. */
  predicate LastOfItsKey(rows: seq<UserDataRow>, i: int)
    requires 0 <= i < |rows|
  {
    forall j :: i < j < |rows| ==> rows[j].subContentId != rows[i].subContentId || rows[j].dataId != rows[i].dataId
  }

  /** `$data[$sub][$id]`, or none where it is not set. */
  function Lookup(d: UserData, sub: int, id: string): Option<string>
  {
    if sub in d && id in d[sub] then Some(d[sub][id]) else None
  }

  lemma WithRowLookup(d: UserData, row: UserDataRow, sub: int, id: string)
    ensures Lookup(WithRow(d, row), sub, id)
            == if sub == row.subContentId && id == row.dataId then Some(row.data) else Lookup(d, sub, id)
  {
  }

  /**
   * For every sub-content id and data id, the preloaded data holds the value
   * of the last row with that key; with no such row it holds the default
   * state for sub-content 0 and `state`, and nothing otherwise.
   */
  lemma {:induction false} PreloadedHoldsLastRow(rows: seq<UserDataRow>, sub: int, id: string)
    ensures HasRow(rows, sub, id) ==>
              exists i :: 0 <= i < |rows| && LastOfItsKey(rows, i) && rows[i].subContentId == sub && rows[i].dataId == id
                          && Lookup(Preloaded(rows), sub, id) == Some(rows[i].data)
    ensures !HasRow(rows, sub, id) ==>
              Lookup(Preloaded(rows), sub, id) == if sub == 0 && id == "state" then Some("{}") else None
    decreases |rows|
  {
    if rows != [] {
      var init := rows[..|rows| - 1];
      var last := rows[|rows| - 1];
      WithRowLookup(Preloaded(init), last, sub, id);
      if last.subContentId == sub && last.dataId == id {
        assert LastOfItsKey(rows, |rows| - 1);
      } else {
        PreloadedHoldsLastRow(init, sub, id);
        HasRowStep(rows, sub, id);
        if HasRow(init, sub, id) {
          var i :| 0 <= i < |init| && LastOfItsKey(init, i) && init[i].subContentId == sub && init[i].dataId == id
                   && Lookup(Preloaded(init), sub, id) == Some(init[i].data);
          LastOfItsKeyStep(rows, i);
        }
      }
    }
  }

  /** A row has its key in `rows` exactly when it has it in all but the last row, or in the last. */
  lemma HasRowStep(rows: seq<UserDataRow>, sub: int, id: string)
    requires rows != []
    ensures HasRow(rows, sub, id) <==>
              HasRow(rows[..|rows| - 1], sub, id) || (rows[|rows| - 1].subContentId == sub && rows[|rows| - 1].dataId == id)
  {
    var init := rows[..|rows| - 1];
    if HasRow(rows, sub, id) {
      var k :| 0 <= k < |rows| && rows[k].subContentId == sub && rows[k].dataId == id;
      if k < |init| {
        assert init[k] == rows[k];
      }
    }
    if HasRow(init, sub, id) {
      var k :| 0 <= k < |init| && init[k].subContentId == sub && init[k].dataId == id;
      assert rows[k] == init[k];
    }
  }

  /** The last row of a key among all but the last row stays last when the last row has another key. */
  lemma LastOfItsKeyStep(rows: seq<UserDataRow>, i: int)
    requires 0 <= i < |rows| - 1
    requires LastOfItsKey(rows[..|rows| - 1], i)
    requires rows[|rows| - 1].subContentId != rows[i].subContentId || rows[|rows| - 1].dataId != rows[i].dataId
    ensures LastOfItsKey(rows, i)
  {
    var init := rows[..|rows| - 1];
    forall j | i < j < |rows|
      ensures rows[j].subContentId != rows[i].subContentId || rows[j].dataId != rows[i].dataId
    {
      if j < |init| {
        assert rows[j] == init[j] && rows[i] == init[i];
      }
    }
  }

  /**
   * `getContentUserData` as its comment and the rest of the service
   * intend it: start from the default and write every saved row into it.
   */
  method PreloadContentUserData(rows: seq<UserDataRow>) returns (r: UserData)
    ensures r == Preloaded(rows)
  {
    r := DefaultUserData();
    for i := 0 to |rows|
      invariant r == Preloaded(rows[..i])
    {
      assert rows[..i + 1][..i] == rows[..i];
      r := WithRow(r, rows[i]);
    }
    assert rows[..|rows|] == rows;
  }

  /** A saved state that the code as written drops: the corrected result carries it, the default does not. */
  lemma SavedStateIsDropped()
    ensures var rows := [UserDataRow(0, "state", "{\"progress\":1}")];
      Preloaded(rows)[0]["state"] == "{\"progress\":1}" && DefaultUserData()[0]["state"] == "{}"
      && Preloaded(rows) != DefaultUserData()
  {
    var rows := [UserDataRow(0, "state", "{\"progress\":1}")];
    assert rows[..0] == [];
    WithRowLookup(DefaultUserData(), rows[0], 0, "state");
    assert Preloaded(rows)[0]["state"] != DefaultUserData()[0]["state"];
  }

  // ---------------------------------------------------------------- content settings

  datatype ContentSettings =
    | NoContent
    | ContentSettings(
        library: string, jsonContent: string, fullScreen: bool, url: string, title: string,
        resizeCode: string, displayOptions: string, contentUserData: UserData,
        scripts: seq<string>, styles: seq<string>)

  /** `$asset->path . $asset->version` for every file. */
  function FileUrls(files: seq<AssetFile>): (r: seq<string>)
    ensures |r| == |files|
    ensures forall i :: 0 <= i < |files| ==> r[i] == files[i].path + files[i].version
  {
    seq(|files|, i requires 0 <= i < |files| => files[i].path + files[i].version)
  }

  function ResizeCode(cfg: Config): string
  {
    "<script src=\"" + cfg.publicFolderUrl + cfg.coreFolder + "/js/h5p-resizer.js" + "\" charset=\"UTF-8\"></script>"
  }

  /** The settings of a stored content, with the given user data. */
  function SettingsWith(env: Env, c: StoredContent, userData: UserData): ContentSettings
  {
    ContentSettings(
      c.libraryString, c.assoc.filtered, c.assoc.library.fullscreen, env.baseUri, c.assoc.title,
      ResizeCode(env.config), c.displayOptions, userData,
      FileUrls(c.scriptFiles), FileUrls(c.styleFiles))
  }

  /** State saving is on and there is a current user, so saved user data is asked for. */
  predicate PreloadsUserData(env: Env)
  {
    env.options.saveContentState && env.currentUser.Some?
  }

  /**
   * What `generateContentSettings` yields for an id: the empty array for an
   * id without content; otherwise the settings built from the content. The
   * user data is the default `{0: {state: "{}"}}` in every case: where it is
   * asked for, `getContentUserData` returns that default too.
   */
  function ContentSettingsOf(env: Env, id: int): ContentSettings
  {
    if id !in env.stored then NoContent else SettingsWith(env, env.stored[id], DefaultUserData())
  }

  /** `generateContentSettings` */
  method GenerateContentSettings(env: Env, id: int) returns (s: ContentSettings)
    ensures s == ContentSettingsOf(env, id)
    ensures s.NoContent? <==> id !in env.stored
    ensures s.ContentSettings? ==> s.contentUserData == DefaultUserData()
  {
    if id !in env.stored {
      return NoContent;
    }
    var c := env.stored[id];
    var userData := DefaultUserData();
    if PreloadsUserData(env) {
      userData := GetContentUserData(c.userRows);
    }
    s := SettingsWith(env, c, userData);
  }

  /** The content settings with the saved user data preloaded, as the service evidently intends. */
  function ContentSettingsCorrectedOf(env: Env, id: int): ContentSettings
  {
    if id !in env.stored then NoContent
    else
      var c := env.stored[id];
      SettingsWith(env, c, if PreloadsUserData(env) then Preloaded(c.userRows) else DefaultUserData())
  }

  /** `generateContentSettings` with the corrected preloading. */
  method GenerateContentSettingsCorrected(env: Env, id: int) returns (s: ContentSettings)
    ensures s == ContentSettingsCorrectedOf(env, id)
    ensures s.NoContent? <==> id !in env.stored
  {
    if id !in env.stored {
      return NoContent;
    }
    var c := env.stored[id];
    var userData := DefaultUserData();
    if PreloadsUserData(env) {
      userData := PreloadContentUserData(c.userRows);
    }
    s := SettingsWith(env, c, userData);
  }

  /**
   * With state saving on and a current user, the corrected settings of a
   * stored content carry, for every key the user has saved, the value of the
   * last row saved under it; keys never saved keep the default.
   */
  lemma ContentSettingsPreloadSavedState(env: Env, id: int, sub: int, dataId: string)
    requires id in env.stored && PreloadsUserData(env)
    ensures var rows := env.stored[id].userRows;
            var d := ContentSettingsCorrectedOf(env, id).contentUserData;
      && (HasRow(rows, sub, dataId) ==>
            exists i :: 0 <= i < |rows| && LastOfItsKey(rows, i) && rows[i].subContentId == sub && rows[i].dataId == dataId
                        && Lookup(d, sub, dataId) == Some(rows[i].data))
      && (!HasRow(rows, sub, dataId) ==> Lookup(d, sub, dataId) == Lookup(DefaultUserData(), sub, dataId))
  {
    PreloadedHoldsLastRow(env.stored[id].userRows, sub, dataId);
  }

  /** A saved row that is the last of its key and holds something other than the default for it. */
  predicate ChangesDefault(rows: seq<UserDataRow>, i: int)
    requires 0 <= i < |rows|
  {
    LastOfItsKey(rows, i) && Lookup(DefaultUserData(), rows[i].subContentId, rows[i].dataId) != Some(rows[i].data)
  }

  /**
   * The as-written settings and the corrected ones differ exactly for a
   * stored content, with saved user data asked for, whose saved rows change
   * some value of the default.
   */
  lemma AsWrittenSettingsDropSavedRows(env: Env, id: int)
    ensures ContentSettingsOf(env, id) != ContentSettingsCorrectedOf(env, id) <==>
              id in env.stored && PreloadsUserData(env)
              && exists i :: 0 <= i < |env.stored[id].userRows| && ChangesDefault(env.stored[id].userRows, i)
  {
    if id in env.stored {
      var c := env.stored[id];
      PreloadChangesDefaultExactly(c.userRows);
      if PreloadsUserData(env) && Preloaded(c.userRows) != DefaultUserData() {
        assert ContentSettingsCorrectedOf(env, id).contentUserData != ContentSettingsOf(env, id).contentUserData;
      }
    }
  }

  /** The preloaded data differs from the default exactly when some last row of its key changes a default value. */
  lemma PreloadChangesDefaultExactly(rows: seq<UserDataRow>)
    ensures Preloaded(rows) != DefaultUserData() <==> exists i :: 0 <= i < |rows| && ChangesDefault(rows, i)
  {
    if exists i :: 0 <= i < |rows| && ChangesDefault(rows, i) {
      var i :| 0 <= i < |rows| && ChangesDefault(rows, i);
      ChangingRowShows(rows, i);
    }
    if Preloaded(rows) != DefaultUserData() {
      ChangedValueHasRow(rows);
    }
  }

  /** A last row of its key holding something other than the default shows in the preloaded data. */
  lemma ChangingRowShows(rows: seq<UserDataRow>, i: int)
    requires 0 <= i < |rows| && ChangesDefault(rows, i)
    ensures Preloaded(rows) != DefaultUserData()
  {
    var sub, id := rows[i].subContentId, rows[i].dataId;
    PreloadedHoldsLastRow(rows, sub, id);
    assert HasRow(rows, sub, id);
    var j :| 0 <= j < |rows| && LastOfItsKey(rows, j) && rows[j].subContentId == sub && rows[j].dataId == id
             && Lookup(Preloaded(rows), sub, id) == Some(rows[j].data);
    LastOfItsKeyUnique(rows, i, j);
    assert Lookup(Preloaded(rows), sub, id) != Lookup(DefaultUserData(), sub, id);
  }

  /** Preloaded data that differs from the default owes it to some last row of its key. */
  lemma ChangedValueHasRow(rows: seq<UserDataRow>)
    requires Preloaded(rows) != DefaultUserData()
    ensures exists i :: 0 <= i < |rows| && ChangesDefault(rows, i)
  {
    var p, d := Preloaded(rows), DefaultUserData();
    PreloadedInnerNonEmpty(rows);
    assert forall sub :: sub in d ==> d[sub] != map[] by {
      assert "state" in d[0];
    }
    UserDataDiffer(p, d);
    var sub, id :| Lookup(p, sub, id) != Lookup(d, sub, id);
    PreloadedHoldsLastRow(rows, sub, id);
    var i :| 0 <= i < |rows| && LastOfItsKey(rows, i) && rows[i].subContentId == sub && rows[i].dataId == id
             && Lookup(p, sub, id) == Some(rows[i].data);
    assert ChangesDefault(rows, i);
  }

  lemma LastOfItsKeyUnique(rows: seq<UserDataRow>, i: int, j: int)
    requires 0 <= i < |rows| && 0 <= j < |rows| && LastOfItsKey(rows, i) && LastOfItsKey(rows, j)
    requires rows[i].subContentId == rows[j].subContentId && rows[i].dataId == rows[j].dataId
    ensures i == j
  {
  }

  /** Every sub-content entry of the preloaded data holds at least one data id. */
  lemma {:induction false} PreloadedInnerNonEmpty(rows: seq<UserDataRow>)
    ensures forall sub :: sub in Preloaded(rows) ==> Preloaded(rows)[sub] != map[]
    decreases |rows|
  {
    if rows == [] {
      assert "state" in Preloaded(rows)[0];
    } else {
      var init := rows[..|rows| - 1];
      var last := rows[|rows| - 1];
      PreloadedInnerNonEmpty(init);
      var d := Preloaded(init);
      assert Preloaded(rows) == WithRow(d, last);
      forall sub | sub in WithRow(d, last) ensures WithRow(d, last)[sub] != map[] {
        if sub == last.subContentId {
          assert last.dataId in WithRow(d, last)[sub];
        } else {
          assert WithRow(d, last)[sub] == d[sub];
        }
      }
    }
  }

  /** Two user-data maps without empty entries that differ have a key where their lookups differ. */
  lemma UserDataDiffer(a: UserData, b: UserData)
    requires forall sub :: sub in a ==> a[sub] != map[]
    requires forall sub :: sub in b ==> b[sub] != map[]
    ensures a != b ==> exists sub, id :: Lookup(a, sub, id) != Lookup(b, sub, id)
  {
    if forall sub, id :: Lookup(a, sub, id) == Lookup(b, sub, id) {
      forall sub | sub in a ensures sub in b && a[sub] == b[sub] {
        var id :| id in a[sub];
        assert Lookup(a, sub, id) == Lookup(b, sub, id);
        forall k | k in a[sub] ensures k in b[sub] && a[sub][k] == b[sub][k] {
          assert Lookup(a, sub, k) == Lookup(b, sub, k);
        }
        forall k | k in b[sub] ensures k in a[sub] {
          assert Lookup(a, sub, k) == Lookup(b, sub, k);
        }
      }
      forall sub | sub in b ensures sub in a {
        var id :| id in b[sub];
        assert Lookup(a, sub, id) == Lookup(b, sub, id);
      }
    }
  }

  // ---------------------------------------------------------------- core settings

  /** `'cid-' . $contentId` */
  function CidKey(id: int): string
  {
    "cid-" + IntToString(id)
  }

  lemma CidKeyInjective(a: int, b: int)
    requires CidKey(a) == CidKey(b)
    ensures a == b
  {
    assert CidKey(a)[4..] == IntToString(a);
    assert CidKey(b)[4..] == IntToString(b);
    IntToStringInjective(a, b);
  }

  datatype SaveFrequency = Never | Every(seconds: int)

  datatype UserInfo = UserInfo(name: string, mail: Option<string>)

  datatype CoreSettings = CoreSettings(
    baseUrl: string, url: string, postUserStatistics: bool,
    ajaxSetFinished: string, ajaxContentUserData: string,
    saveFreq: SaveFrequency, siteUrl: string, hubIsEnabled: bool, reportingIsEnabled: bool,
    coreScripts: seq<string>, coreStyles: seq<string>,
    user: Option<UserInfo>, contents: Option<map<string, ContentSettings>>, editor: Option<EditorSettings>)

  /** The `user` entry: full name and first address (`first()` of an empty collection gives none). */
  function UserInfoOf(u: User): UserInfo
  {
    UserInfo(u.fullName, if u.addresses == [] then None else Some(u.addresses[0]))
  }

  /** `generateCoreSettings` */
  method GenerateCoreSettings(env: Env) returns (s: CoreSettings)
    ensures s.postUserStatistics <==> env.options.trackUser && env.currentUser.Some?
    ensures s.user.Some? <==> env.currentUser.Some?
    ensures env.currentUser.Some? ==> s.user.value == UserInfoOf(env.currentUser.value)
    ensures s.saveFreq == if env.options.saveContentState then Every(env.options.saveContentFrequency) else Never
    ensures s.baseUrl == env.baseUri && s.siteUrl == env.baseUri
    ensures s.ajaxSetFinished == env.baseUri && s.ajaxContentUserData == env.baseUri
    ensures s.url == env.config.publicFolderUrl
    ensures s.hubIsEnabled == env.options.hubIsEnabled && s.reportingIsEnabled == env.options.lrsContentTypes
    ensures s.coreScripts == CoreScriptUrls(env) && s.coreStyles == CoreStyleUrls(env)
    ensures s.contents.None? && s.editor.None?
  {
    var scripts := GetRelativeCoreScriptUrls(env);
    var styles := GetRelativeCoreStyleUrls(env);
    s := CoreSettings(
      env.baseUri, env.config.publicFolderUrl, env.options.trackUser && env.currentUser.Some?,
      env.baseUri, env.baseUri,
      if env.options.saveContentState then Every(env.options.saveContentFrequency) else Never,
      env.baseUri, env.options.hubIsEnabled, env.options.lrsContentTypes,
      scripts, styles, None, None, None);
    if env.currentUser.Some? {
      s := s.(user := Some(UserInfoOf(env.currentUser.value)));
    }
  }

  /** The `contents` entries for the requested ids: one `cid-<id>` key per distinct id. */
  function ContentsFor(env: Env, ids: seq<int>): (r: map<string, ContentSettings>)
    ensures r.Keys == set id | id in ids :: CidKey(id)
    ensures forall id :: id in ids ==> r[CidKey(id)] == ContentSettingsOf(env, id)
  {
    if ids == [] then map[]
    else
      var init := ids[..|ids| - 1];
      var last := ids[|ids| - 1];
      var prev := ContentsFor(env, init);
      ContentsForStep(env, ids, prev);
      prev[CidKey(last) := ContentSettingsOf(env, last)]
  }

  /** Adding the last id's entry to the entries of all the others gives the entries of all ids. */
  lemma ContentsForStep(env: Env, ids: seq<int>, prev: map<string, ContentSettings>)
    requires ids != []
    requires prev.Keys == set id | id in ids[..|ids| - 1] :: CidKey(id)
    requires forall id :: id in ids[..|ids| - 1] ==> prev[CidKey(id)] == ContentSettingsOf(env, id)
    ensures var r := prev[CidKey(ids[|ids| - 1]) := ContentSettingsOf(env, ids[|ids| - 1])];
            && r.Keys == (set id | id in ids :: CidKey(id))
            && forall id :: id in ids ==> r[CidKey(id)] == ContentSettingsOf(env, id)
  {
    var init := ids[..|ids| - 1];
    var last := ids[|ids| - 1];
    assert ids == init + [last];
    assert forall id :: id in ids <==> id in init || id == last;
    forall id | id in init && id != last
      ensures CidKey(id) != CidKey(last)
    {
      if CidKey(id) == CidKey(last) {
        CidKeyInjective(id, last);
      }
    }
  }

  lemma ContentsForExtend(env: Env, ids: seq<int>, i: int)
    requires 0 <= i < |ids|
    ensures ContentsFor(env, ids[..i + 1]) == ContentsFor(env, ids[..i])[CidKey(ids[i]) := ContentSettingsOf(env, ids[i])]
  {
    assert ids[..i + 1][..i] == ids[..i];
  }

  /** As many `cid-` keys as distinct requested ids. */
  lemma {:induction false} CidKeysCount(ids: seq<int>)
    ensures |set id | id in ids :: CidKey(id)| == |set id | id in ids|
    decreases |ids|
  {
    if ids != [] {
      var init := ids[..|ids| - 1];
      var last := ids[|ids| - 1];
      CidKeysCount(init);
      IdsSnoc(ids, init, last);
      var ks := set id | id in init :: CidKey(id);
      var ds := set id | id in init;
      if last in ds {
        assert CidKey(last) in ks;
        assert ks + {CidKey(last)} == ks && ds + {last} == ds;
      } else {
        assert CidKey(last) !in ks by {
          if CidKey(last) in ks {
            var id :| id in init && CidKey(id) == CidKey(last);
            CidKeyInjective(id, last);
          }
        }
        assert |ks + {CidKey(last)}| == |ks| + 1 && |ds + {last}| == |ds| + 1;
      }
    }
  }

  lemma IdsSnoc(ids: seq<int>, init: seq<int>, last: int)
    requires ids == init + [last]
    ensures (set id | id in ids) == (set id | id in init) + {last}
    ensures (set id | id in ids :: CidKey(id)) == (set id | id in init :: CidKey(id)) + {CidKey(last)}
  {
  }

  /** The `contents` array has one entry per distinct requested id. */
  lemma ContentsForCount(env: Env, ids: seq<int>)
    ensures |ContentsFor(env, ids)| == |set id | id in ids|
  {
    CidKeysCount(ids);
    assert ContentsFor(env, ids).Keys == set id | id in ids :: CidKey(id);
  }

  /**
   * `getSettings`: the core settings, plus a `contents` array holding one
   * `cid-<id>` entry per requested id; there is no `contents` key when no id
   * is requested.
   */
  method GetSettings(env: Env, ids: seq<int>) returns (s: CoreSettings)
    ensures s.contents.Some? <==> |ids| > 0
    ensures s.contents.Some? ==> s.contents.value == ContentsFor(env, ids)
    ensures s.user.Some? <==> env.currentUser.Some?
    ensures s.postUserStatistics <==> env.options.trackUser && env.currentUser.Some?
    ensures s.coreScripts == CoreScriptUrls(env) && s.coreStyles == CoreStyleUrls(env)
    ensures s.editor.None?
  {
    s := GenerateCoreSettings(env);
    var contents: map<string, ContentSettings> := map[];
    for i := 0 to |ids|
      invariant contents == ContentsFor(env, ids[..i])
    {
      ContentsForExtend(env, ids, i);
      var entry := GenerateContentSettings(env, ids[i]);
      contents := contents[CidKey(ids[i]) := entry];
    }
    assert ids[..|ids|] == ids;
    if |ids| > 0 {
      s := s.(contents := Some(contents));
    }
  }

  /** `getSettingsWithEditor`: the core settings with the editor settings for `contentId` added. */
  method GetSettingsWithEditor(env: Env, editorAjaxAction: string, contentId: int) returns (s: CoreSettings)
    ensures s.editor.Some? && s.contents.None?
    ensures s.editor.value.nodeVersionId.Some? <==> contentId != -1
    ensures s.editor.value.nodeVersionId.Some? ==> s.editor.value.nodeVersionId.value == contentId
    ensures s.editor.value.css == CoreStyleUrls(env) + EditorStyleUrls(env)
    ensures s.editor.value.js == CoreScriptUrls(env) + EditorScriptUrls(env)
    ensures s.editor.value.ajaxPath == editorAjaxAction + "/"
    ensures s.user.Some? <==> env.currentUser.Some?
    ensures s.coreScripts == CoreScriptUrls(env) && s.coreStyles == CoreStyleUrls(env)
  {
    s := GenerateCoreSettings(env);
    var editor := GenerateEditorSettings(env, editorAjaxAction, contentId);
    s := s.(editor := Some(editor));
  }
}
