/**
  The workspace snapshot the application state is seeded with, built once and
  never changed (the state hook that holds it exposes no setter). The sample
  file bodies are not reproduced: every file carries the empty string
  `Sample` as its text, since nothing below depends on what the files say.
 */
module Seed {
  import opened Wrappers
  import opened FileTree

  const Sample: string := ""

  /** The seeded files, each with the path the application state gives it. */
  const AppContextTsx: Node := File("app-context", "AppContext.tsx", "/src/AppContext.tsx", Some(Sample))
  const UseLocalStorageTs: Node := File("use-local-storage", "useLocalStorage.ts", "/hooks/useLocalStorage.ts", Some(Sample))
  const UseThemeTs: Node := File("use-theme", "useTheme.ts", "/hooks/useTheme.ts", Some(Sample))
  const AppTsx: Node := File("app-types", "App.tsx", "/types/App.tsx", Some(Sample))
  const IndexCss: Node := File("index-types", "index.css", "/types/index.css", Some(Sample))
  const MainTsx: Node := File("main-types", "main.tsx", "/types/main.tsx", Some(Sample))
  const ViteEnvDts: Node := File("vite-env-types", "vite-env.d.ts", "/types/vite-env.d.ts", Some(Sample))
  const Gitignore: Node := File("gitignore", ".gitignore", "/.gitignore", Some(Sample))
  const EslintConfigJs: Node := File("eslint-config", "eslint.config.js", "/eslint.config.js", Some(Sample))
  const IndexHtml: Node := File("index-html", "index.html", "/index.html", Some(Sample))
  const PackageJson: Node := File("package-json", "package.json", "/package.json", Some(Sample))
  const PackageLockJson: Node := File("package-lock", "package-lock.json", "/package-lock.json", Some(Sample))
  const PostcssConfigJs: Node := File("postcss-config", "postcss.config.js", "/postcss.config.js", Some(Sample))
  const TailwindConfigJs: Node := File("tailwind-config", "tailwind.config.js", "/tailwind.config.js", Some(Sample))
  const TsconfigAppJson: Node := File("tsconfig-app", "tsconfig.app.json", "/tsconfig.app.json", Some(Sample))
  const TsconfigJson: Node := File("tsconfig", "tsconfig.json", "/tsconfig.json", Some(Sample))
  const TsconfigNodeJson: Node := File("tsconfig-node", "tsconfig.node.json", "/tsconfig.node.json", Some(Sample))
  const ViteConfigTs: Node := File("vite-config", "vite.config.ts", "/vite.config.ts", Some(Sample))

  const Bolt: Node := Folder("bolt", ".bolt", "/.bolt", [])
  const Src: Node := Folder("src", "src", "/src", [AppContextTsx])
  const Hooks: Node := Folder("hooks", "hooks", "/hooks", [UseLocalStorageTs, UseThemeTs])
  const Types: Node := Folder("types", "types", "/types", [AppTsx, IndexCss, MainTsx, ViteEnvDts])

  /** The configuration files at the top level, after the folders. */
  const RootFiles: seq<Node> := [
    Gitignore, EslintConfigJs, IndexHtml, PackageJson,
    PackageLockJson, PostcssConfigJs, TailwindConfigJs, TsconfigAppJson,
    TsconfigJson, TsconfigNodeJson, ViteConfigTs
  ]

  /** The seed forest, in the order the explorer shows it. */
  const Workspace: seq<Node> := [Bolt, Src, Hooks, Types] + RootFiles

  /** The file the application state starts with as active. */
  const InitialActive: Id := "app-context"

  /** The ids of the seed in pre-order, as the lookup visits them. */
  const PreorderIds: seq<Id> := [
    "bolt", "src", "app-context", "hooks", "use-local-storage", "use-theme",
    "types", "app-types", "index-types", "main-types", "vite-env-types",
    "gitignore", "eslint-config", "index-html", "package-json", "package-lock",
    "postcss-config", "tailwind-config", "tsconfig-app", "tsconfig", "tsconfig-node",
    "vite-config"
  ]

  /** A folder of files in front of a forest lists as the folder, its files, then the forest's listing. */
  lemma FolderOfFilesListing(n: Node, rest: seq<Node>, restListing: seq<Node>)
    requires n.Folder? && forall k | 0 <= k < |n.children| :: n.children[k].File?
    requires Flatten(rest) == restListing
    ensures Flatten([n] + rest) == ([n] + n.children) + restListing
  {
    FlattenFiles(n.children);
    assert [n][1..] == [];
    FlattenAppend([n], rest);
  }

  /** The top-level files are files, so they list as themselves. */
  lemma RootFilesListing()
    ensures Flatten(RootFiles) == RootFiles
  {
    assert forall k | 0 <= k < |RootFiles| :: RootFiles[k].File?;
    FlattenFiles(RootFiles);
  }

  /** The seed in pre-order: each folder followed by its files, then the top-level files. */
  const Listing: seq<Node> :=
    ([Bolt] + Bolt.children) + (([Src] + Src.children) + (([Hooks] + Hooks.children)
      + (([Types] + Types.children) + RootFiles)))

  lemma SeedListing()
    ensures Flatten(Workspace) == Listing
  {
    var lower := ([Types] + Types.children) + RootFiles;
    var middle := ([Hooks] + Hooks.children) + lower;
    var upper := ([Src] + Src.children) + middle;
    RootFilesListing();
    FoldersHoldFiles();
    FolderOfFilesListing(Types, RootFiles, RootFiles);
    FolderOfFilesListing(Hooks, [Types] + RootFiles, lower);
    FolderOfFilesListing(Src, [Hooks] + ([Types] + RootFiles), middle);
    FolderOfFilesListing(Bolt, [Src] + ([Hooks] + ([Types] + RootFiles)), upper);
    WorkspaceSplit();
  }

  /** The seed's folders hold only files. */
  lemma FoldersHoldFiles()
    ensures Bolt.Folder? && Bolt.children == []
    ensures Src.Folder? && forall k | 0 <= k < |Src.children| :: Src.children[k].File?
    ensures Hooks.Folder? && forall k | 0 <= k < |Hooks.children| :: Hooks.children[k].File?
    ensures Types.Folder? && forall k | 0 <= k < |Types.children| :: Types.children[k].File?
  {
  }

  lemma WorkspaceSplit()
    ensures Workspace == [Bolt] + ([Src] + ([Hooks] + ([Types] + RootFiles)))
  {
  }

  /** The ids of each folder group of the listing. */
  lemma GroupIds()
    ensures IdsOf([Bolt] + Bolt.children) == ["bolt"]
    ensures IdsOf([Src] + Src.children) == ["src", "app-context"]
    ensures IdsOf([Hooks] + Hooks.children) == ["hooks", "use-local-storage", "use-theme"]
    ensures IdsOf([Types] + Types.children) == ["types", "app-types", "index-types", "main-types", "vite-env-types"]
    ensures IdsOf(RootFiles) == PreorderIds[11..]
  {
  }

  /** The pre-order walk of the seed visits exactly these ids, in this order. */
  lemma SeedPreorder()
    ensures IdsOf(Flatten(Workspace)) == PreorderIds
  {
    SeedListing();
    var lower := ([Types] + Types.children) + RootFiles;
    var middle := ([Hooks] + Hooks.children) + lower;
    var upper := ([Src] + Src.children) + middle;
    IdsOfAppend([Types] + Types.children, RootFiles);
    IdsOfAppend([Hooks] + Hooks.children, lower);
    IdsOfAppend([Src] + Src.children, middle);
    IdsOfAppend([Bolt] + Bolt.children, upper);
    GroupIds();
    PreorderGroups();
  }

  /** The pre-order list cut into the folder groups and the top-level files. */
  lemma PreorderGroups()
    ensures PreorderIds == ["bolt"] + (["src", "app-context"] + (["hooks", "use-local-storage", "use-theme"]
      + (["types", "app-types", "index-types", "main-types", "vite-env-types"] + PreorderIds[11..])))
  {
  }

  /** No id repeats in the pre-order list. */
  lemma PreorderIdsDistinct()
    ensures forall i, j | 0 <= i < j < |PreorderIds| :: PreorderIds[i] != PreorderIds[j]
  {
  }

  /** The seed lists 22 nodes, and no id repeats anywhere in it. */
  lemma SeedIdsUnique()
    ensures |Flatten(Workspace)| == 22
    ensures UniqueIds(Workspace)
  {
    SeedPreorder();
    PreorderIdsDistinct();
    var xs := Flatten(Workspace);
    assert forall i | 0 <= i < |xs| :: xs[i].id == PreorderIds[i];
  }

  // Each seeded file's path is its folder's path, a slash and its name.
  lemma AppContextTsxPath() ensures PathWellFormed(AppContextTsx, "/src") { assert AppContextTsx.path == "/src" + "/" + "AppContext.tsx"; }
  lemma UseLocalStorageTsPath() ensures PathWellFormed(UseLocalStorageTs, "/hooks") { assert UseLocalStorageTs.path == "/hooks" + "/" + "useLocalStorage.ts"; }
  lemma UseThemeTsPath() ensures PathWellFormed(UseThemeTs, "/hooks") { assert UseThemeTs.path == "/hooks" + "/" + "useTheme.ts"; }
  lemma AppTsxPath() ensures PathWellFormed(AppTsx, "/types") { assert AppTsx.path == "/types" + "/" + "App.tsx"; }
  lemma IndexCssPath() ensures PathWellFormed(IndexCss, "/types") { assert IndexCss.path == "/types" + "/" + "index.css"; }
  lemma MainTsxPath() ensures PathWellFormed(MainTsx, "/types") { assert MainTsx.path == "/types" + "/" + "main.tsx"; }
  lemma ViteEnvDtsPath() ensures PathWellFormed(ViteEnvDts, "/types") { assert ViteEnvDts.path == "/types" + "/" + "vite-env.d.ts"; }
  lemma GitignorePath() ensures PathWellFormed(Gitignore, "") { assert Gitignore.path == "/" + ".gitignore"; }
  lemma EslintConfigJsPath() ensures PathWellFormed(EslintConfigJs, "") { assert EslintConfigJs.path == "/" + "eslint.config.js"; }
  lemma IndexHtmlPath() ensures PathWellFormed(IndexHtml, "") { assert IndexHtml.path == "/" + "index.html"; }
  lemma PackageJsonPath() ensures PathWellFormed(PackageJson, "") { assert PackageJson.path == "/" + "package.json"; }
  lemma PackageLockJsonPath() ensures PathWellFormed(PackageLockJson, "") { assert PackageLockJson.path == "/" + "package-lock.json"; }
  lemma PostcssConfigJsPath() ensures PathWellFormed(PostcssConfigJs, "") { assert PostcssConfigJs.path == "/" + "postcss.config.js"; }
  lemma TailwindConfigJsPath() ensures PathWellFormed(TailwindConfigJs, "") { assert TailwindConfigJs.path == "/" + "tailwind.config.js"; }
  lemma TsconfigAppJsonPath() ensures PathWellFormed(TsconfigAppJson, "") { assert TsconfigAppJson.path == "/" + "tsconfig.app.json"; }
  lemma TsconfigJsonPath() ensures PathWellFormed(TsconfigJson, "") { assert TsconfigJson.path == "/" + "tsconfig.json"; }
  lemma TsconfigNodeJsonPath() ensures PathWellFormed(TsconfigNodeJson, "") { assert TsconfigNodeJson.path == "/" + "tsconfig.node.json"; }
  lemma ViteConfigTsPath() ensures PathWellFormed(ViteConfigTs, "") { assert ViteConfigTs.path == "/" + "vite.config.ts"; }

  /** The folder `src` and its files carry well-formed paths. */
  lemma SrcPaths()
    ensures PathWellFormed(Src, "")
  {
    AppContextTsxPath();
  }

  /** The folder `hooks` and its files carry well-formed paths. */
  lemma HooksPaths()
    ensures PathWellFormed(Hooks, "")
  {
    UseLocalStorageTsPath();
    UseThemeTsPath();
  }

  /** The folder `types` and its files carry well-formed paths. */
  lemma TypesPaths()
    ensures PathWellFormed(Types, "")
  {
    AppTsxPath();
    IndexCssPath();
    MainTsxPath();
    ViteEnvDtsPath();
  }

  /** The top-level files carry well-formed paths. */
  lemma RootFilesPaths()
    ensures PathsWellFormed(RootFiles, "")
  {
    GitignorePath();
    EslintConfigJsPath();
    IndexHtmlPath();
    PackageJsonPath();
    PackageLockJsonPath();
    PostcssConfigJsPath();
    TailwindConfigJsPath();
    TsconfigAppJsonPath();
    TsconfigJsonPath();
    TsconfigNodeJsonPath();
    ViteConfigTsPath();
  }

  /** Every path in the seed is its parent's path, a slash and its name. */
  lemma SeedPathsWellFormed()
    ensures PathsWellFormed(Workspace, "")
  {
    assert PathWellFormed(Bolt, "");
    SrcPaths();
    HooksPaths();
    TypesPaths();
    RootFilesPaths();
    WorkspaceSplit();
    assert forall k | 4 <= k < |Workspace| :: Workspace[k] == RootFiles[k - 4];
  }

  /** Every seeded file has text, and an empty folder is part of the seed. */
  lemma SeedShape()
    ensures ContentLoaded(Workspace)
    ensures Workspace[0].Folder? && Workspace[0].children == []
  {
    SeedListing();
    assert forall k | 0 <= k < |Listing| :: Listing[k].File? ==> Listing[k].content.Some?;
  }

  /** The initial active id names a file of the seed: the one under src. */
  lemma InitialActiveIsFile()
    ensures Find(Workspace, InitialActive) == Some(Src.children[0])
    ensures Src.children[0].File? && Src.children[0].path == "/src/AppContext.tsx"
  {
    var rest := [Src] + ([Hooks] + ([Types] + RootFiles));
    assert Find(Src.children, InitialActive) == Some(Src.children[0]);
    assert Find(rest, InitialActive) == Some(Src.children[0]) by {
      assert rest[0] == Src;
    }
    WorkspaceSplit();
    assert ([Bolt] + rest)[0] == Bolt && ([Bolt] + rest)[1..] == rest;
  }
}
