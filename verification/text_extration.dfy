/**
 * src/text_extration.py: the text normaliser used on every chunk and every
 * request, the recursive walk that finds all files under a folder, and the
 * extension dispatch that reads each file into a dict keyed by its path
 * relative to that folder.
 *
 * nltk (`word_tokenize`, the Russian Snowball stemmer, the WordNet
 * lemmatizer) and the `\w` class of Python's `re` are kept uninterpreted in a
 * `Toolkit`. The file system is a tree of `Node`s and the file decoders are
 * a `Decoders` value.
 */
module TextExtration {
  import opened PyText
  import opened PyDict

  // ---------------------------------------------------------------------
  // The normaliser
  // ---------------------------------------------------------------------

  /** The outside services the normaliser calls, left uninterpreted. */
  datatype Toolkit = Toolkit(
    tokenize: string -> seq<string>,   // nltk.word_tokenize
    stem: string -> string,            // SnowballStemmer("russian").stem
    lemmatize: string -> string,       // WordNetLemmatizer().lemmatize
    isWordChar: char -> bool)          // membership in `\w`

  /** The character class `[а-яёА-ЯЁ]`. */
  predicate IsCyrillic(c: char) {
    || ('\U{430}' <= c <= '\U{44F}')   // а-я
    || c == '\U{451}'                  // ё
    || ('\U{410}' <= c <= '\U{42F}')   // А-Я
    || c == '\U{401}'                  // Ё
  }

  /** `re.search(r'[а-яёА-ЯЁ]', token)` finds a match. */
  function HasCyrillic(token: string): (r: bool)
    ensures r <==> exists i :: 0 <= i < |token| && IsCyrillic(token[i])
  {
    if token == [] then false
    else
      assert forall i :: 1 <= i < |token| ==> token[i] == token[1..][i - 1];
      IsCyrillic(token[0]) || HasCyrillic(token[1..])
  }

  /** One token: the Russian stemmer when it holds any Cyrillic letter (so a
      mixed-script token counts as Russian), the English lemmatizer otherwise. */
  function ProcessToken(kit: Toolkit, token: string): string {
    if HasCyrillic(token) then kit.stem(token) else kit.lemmatize(token)
  }

  /** The list `lemmatized_words` once every token has been processed. */
  function ProcessAll(kit: Toolkit, tokens: seq<string>): (ws: seq<string>)
    ensures |ws| == |tokens|
    ensures forall i :: 0 <= i < |tokens| ==> ws[i] == ProcessToken(kit, tokens[i])
  {
    if tokens == [] then []
    else ProcessAll(kit, tokens[..|tokens| - 1]) + [ProcessToken(kit, tokens[|tokens| - 1])]
  }

  /** What `[^\w\s]` does not match. */
  predicate Kept(kit: Toolkit, c: char) {
    kit.isWordChar(c) || IsSpace(c)
  }

  /** `re.sub(r'[^\w\s]', '', s)`. */
  function Clean(kit: Toolkit, s: string): (r: string)
    ensures |r| <= |s|
    ensures forall i :: 0 <= i < |r| ==> Kept(kit, r[i])
  {
    if s == [] then []
    else (if Kept(kit, s[0]) then [s[0]] else []) + Clean(kit, s[1..])
  }

  /** Cleaning works character by character, so it distributes over `+`. */
  lemma {:induction false} CleanAppend(kit: Toolkit, a: string, b: string)
    ensures Clean(kit, a + b) == Clean(kit, a) + Clean(kit, b)
  {
    if a == [] {
      assert a + b == b;
    } else {
      assert (a + b)[0] == a[0];
      assert (a + b)[1..] == a[1..] + b;
      CleanAppend(kit, a[1..], b);
    }
  }

  /** Every kept character survives as often as it occurs, every other
      character disappears. With `CleanAppend` this pins the result down:
      the kept characters in their original order. */
  lemma {:induction false} CleanCounts(kit: Toolkit, s: string)
    ensures forall c :: multiset(Clean(kit, s))[c] == if Kept(kit, c) then multiset(s)[c] else 0
  {
    if s != [] {
      CleanCounts(kit, s[1..]);
      assert s == [s[0]] + s[1..];
    }
  }

  /** A string of kept characters only is left as it is. */
  lemma {:induction false} CleanKeepsKept(kit: Toolkit, s: string)
    requires forall i :: 0 <= i < |s| ==> Kept(kit, s[i])
    ensures Clean(kit, s) == s
  {
    if s != [] {
      assert forall i :: 0 <= i < |s[1..]| ==> s[1..][i] == s[i + 1];
      CleanKeepsKept(kit, s[1..]);
    }
  }

  lemma CleanIdempotent(kit: Toolkit, s: string)
    ensures Clean(kit, Clean(kit, s)) == Clean(kit, s)
  {
    CleanKeepsKept(kit, Clean(kit, s));
  }

  /** `Clean` applied to every string of a list. */
  function CleanEach(kit: Toolkit, ws: seq<string>): (cs: seq<string>)
    ensures |cs| == |ws|
    ensures forall i :: 0 <= i < |ws| ==> cs[i] == Clean(kit, ws[i])
  {
    if ws == [] then []
    else CleanEach(kit, ws[..|ws| - 1]) + [Clean(kit, ws[|ws| - 1])]
  }

  /** The separating spaces survive cleaning, so cleaning the joined text is
      joining the cleaned words. */
  lemma {:induction false} CleanJoin(kit: Toolkit, ws: seq<string>)
    ensures Clean(kit, JoinSpace(ws)) == JoinSpace(CleanEach(kit, ws))
  {
    if |ws| >= 2 {
      var init := ws[..|ws| - 1];
      CleanJoin(kit, init);
      CleanAppend(kit, JoinSpace(init) + " ", ws[|ws| - 1]);
      CleanAppend(kit, JoinSpace(init), " ");
      assert Clean(kit, " ") == " " by {
        assert Kept(kit, ' ');
        assert " "[1..] == [];
      }
      assert CleanEach(kit, ws)[..|ws| - 1] == CleanEach(kit, init);
    }
  }

  /** `lemmatization_and_punct_clean(text)`, as a value: the result holds word
      characters and whitespace only, so `!` and the like never survive. */
  function Normalize(kit: Toolkit, text: string): (r: string)
    ensures forall i :: 0 <= i < |r| ==> Kept(kit, r[i])
  {
    Clean(kit, JoinSpace(ProcessAll(kit, kit.tokenize(text))))
  }

  /** One processed and cleaned token per token, in the tokenizer's order,
      separated by single spaces. */
  lemma NormalizeTokenwise(kit: Toolkit, text: string)
    ensures var ws := CleanEach(kit, ProcessAll(kit, kit.tokenize(text)));
      && |ws| == |kit.tokenize(text)|
      && Normalize(kit, text) == JoinSpace(ws)
      && forall i :: 0 <= i < |ws| ==> ws[i] == Clean(kit, ProcessToken(kit, kit.tokenize(text)[i]))
  {
    CleanJoin(kit, ProcessAll(kit, kit.tokenize(text)));
  }

  /** `[A-Za-z0-9_]`. */
  predicate IsAsciiWordChar(c: char) {
    ('a' <= c <= 'z') || ('A' <= c <= 'Z') || ('0' <= c <= '9') || c == '_'
  }

  /** The one fact about the `\w` of Python's `re` the punctuation claim
      needs: on ASCII it is exactly letters, digits and the underscore. */
  ghost predicate AsciiWord(kit: Toolkit) {
    forall c: char :: c < '\U{80}' ==> (kit.isWordChar(c) <==> IsAsciiWordChar(c))
  }

  /** With Python's `\w`, every ASCII character of the normalised text is a
      letter, a digit, `_` or whitespace: ASCII punctuation such as `!`, `?`,
      `.` or `,` never survives. */
  lemma NormalizeDropsPunctuation(kit: Toolkit, text: string)
    requires AsciiWord(kit)
    ensures var r := Normalize(kit, text);
      forall i :: 0 <= i < |r| && r[i] < '\U{80}' ==> IsAsciiWordChar(r[i]) || IsSpace(r[i])
    ensures '!' !in Normalize(kit, text)
  {
    var r := Normalize(kit, text);
    forall i | 0 <= i < |r| ensures r[i] != '!' {
      assert Kept(kit, r[i]);
    }
  }

  // ---------------------------------------------------------------------
  // Files and paths
  // ---------------------------------------------------------------------

  /** A path as its list of components; `str(path)` joins them with `/`. */
  type Path = seq<string>

  /** A directory entry: a file, or a folder with its own entries in the
      order `Path.iterdir` yields them. */
  datatype Node = File(name: string) | Folder(name: string, children: seq<Node>)

  /** The full paths `get_paths(folder)` appends, for a folder whose entries
      are `entries`. */
  function FilesIn(folder: Path, entries: seq<Node>): (r: seq<Path>)
    ensures forall p :: p in r ==> folder < p
    decreases entries
  {
    if entries == [] then []
    else FilesIn(folder, entries[..|entries| - 1]) + FilesUnder(folder, entries[|entries| - 1])
  }

  /** What one entry of `folder` contributes: its own path for a file, the
      files below it for a folder. */
  function FilesUnder(folder: Path, node: Node): (r: seq<Path>)
    ensures forall p :: p in r ==> folder < p
    decreases node
  {
    match node
    case File(name) => [folder + [name]]
    case Folder(name, children) => FilesIn(folder + [name], children)
  }

  /** `rel` leads from a folder with entries `entries` to a file (never to a
      folder), through folders of the tree. */
  ghost predicate Reaches(entries: seq<Node>, rel: Path)
    decreases entries
  {
    exists i :: 0 <= i < |entries| && EntryReaches(entries[i], rel)
  }

  ghost predicate EntryReaches(node: Node, rel: Path)
    decreases node
  {
    match node
    case File(n) => rel == [n]
    case Folder(n, ch) => |rel| >= 2 && rel[0] == n && Reaches(ch, rel[1..])
  }

  lemma ReachesSnoc(entries: seq<Node>, rel: Path)
    requires entries != []
    ensures Reaches(entries, rel) <==>
      Reaches(entries[..|entries| - 1], rel) || EntryReaches(entries[|entries| - 1], rel)
  {
    var init := entries[..|entries| - 1];
    assert forall i :: 0 <= i < |init| ==> init[i] == entries[i];
  }

  lemma PathStep(folder: Path, name: string, p: Path)
    ensures p == folder + [name] <==>
      |folder| < |p| && p[..|folder|] == folder && p[|folder|..] == [name]
    ensures (|folder| + 1 < |p| && p[..|folder| + 1] == folder + [name]) <==>
      (|folder| < |p| && p[..|folder|] == folder && |p[|folder|..]| >= 2 && p[|folder|..][0] == name)
    ensures |folder| < |p| ==> p[|folder|..][1..] == p[|folder| + 1..]
  {
    if |folder| < |p| && p[..|folder|] == folder && p[|folder|..] == [name] {
      assert p == p[..|folder|] + p[|folder|..];
    }
    if |folder| + 1 < |p| && p[..|folder|] == folder && p[|folder|] == name {
      assert p[..|folder| + 1] == p[..|folder|] + [p[|folder|]];
    }
  }

  /** `get_paths` records exactly the files of the tree, each under its full
      path: it recurses into every folder and never records a folder. */
  lemma {:induction false} FilesInReaches(folder: Path, entries: seq<Node>, p: Path)
    ensures p in FilesIn(folder, entries) <==>
      |folder| < |p| && p[..|folder|] == folder && Reaches(entries, p[|folder|..])
    decreases entries
  {
    if entries != [] {
      FilesInReaches(folder, entries[..|entries| - 1], p);
      FilesUnderReaches(folder, entries[|entries| - 1], p);
      if |folder| <= |p| {
        ReachesSnoc(entries, p[|folder|..]);
      }
    }
  }

  lemma {:induction false} FilesUnderReaches(folder: Path, node: Node, p: Path)
    ensures p in FilesUnder(folder, node) <==>
      |folder| < |p| && p[..|folder|] == folder && EntryReaches(node, p[|folder|..])
    decreases node
  {
    PathStep(folder, node.name, p);
    if node.Folder? {
      FilesInReaches(folder + [node.name], node.children, p);
    }
  }

  /** The last component, whose suffix decides the decoder. */
  function Name(p: Path): string {
    if p == [] then "" else p[|p| - 1]
  }

  /** `s.rfind(c)`. */
  function RFind(s: string, c: char): (r: int)
    ensures -1 <= r < |s|
    ensures r >= 0 ==> s[r] == c
    ensures forall j :: r < j < |s| ==> s[j] != c
  {
    if s == [] then -1
    else if s[|s| - 1] == c then |s| - 1
    else RFind(s[..|s| - 1], c)
  }

  /** `PurePath(name).suffix`: from the last dot on, unless that dot is the
      first or the last character of the name. */
  function Suffix(name: string): (r: string)
    ensures r == [] || (2 <= |r| < |name| && r == name[|name| - |r|..] && r[0] == '.')
    ensures forall j :: 1 <= j < |r| ==> r[j] != '.'
    ensures r == [] <==>
      (|name| >= 1 && name[|name| - 1] == '.') || forall i :: 1 <= i < |name| ==> name[i] != '.'
  {
    var i := RFind(name, '.');
    if 0 < i < |name| - 1 then name[i..] else ""
  }

  /** How `read_text_from_file` reads a file of a given suffix. */
  datatype Kind = PlainText | Word | Pdf | Unsupported

  const PlainTextSuffixes: seq<string> := [".txt", ".csv", ".json", ".xml", ".html", ".md", ".log", ".py"]

  function KindOf(suffix: string): (k: Kind)
    ensures k == PlainText <==> suffix in PlainTextSuffixes
    ensures k == Word <==> suffix == ".doc" || suffix == ".docx"
    ensures k == Pdf <==> suffix == ".pdf"
  {
    if suffix in PlainTextSuffixes then PlainText
    else if suffix == ".doc" || suffix == ".docx" then Word
    else if suffix == ".pdf" then Pdf
    else Unsupported
  }

  /** The contents the decoders deliver for a full path. */
  datatype Decoders = Decoders(
    readUtf8: Path -> string,          // open(path, encoding='utf-8').read()
    docx: Path -> string,              // docx2txt.process(path)
    pdfPages: Path -> seq<string>)     // page.extract_text() for each page

  /** The text stored for a file: decoded by its suffix, the concatenation of
      its pages for a PDF, and empty for any other suffix. */
  function FileText(dec: Decoders, p: Path): (r: string)
    ensures Suffix(Name(p)) in PlainTextSuffixes ==> r == dec.readUtf8(p)
    ensures Suffix(Name(p)) in [".doc", ".docx"] ==> r == dec.docx(p)
    ensures Suffix(Name(p)) == ".pdf" ==> r == Concat(dec.pdfPages(p))
    ensures Suffix(Name(p)) !in PlainTextSuffixes + [".doc", ".docx", ".pdf"] ==> r == ""
  {
    match KindOf(Suffix(Name(p)))
    case PlainText => dec.readUtf8(p)
    case Word => dec.docx(p)
    case Pdf => Concat(dec.pdfPages(p))
    case Unsupported => ""
  }

  predicate Below(root: Path, p: Path) {
    |root| <= |p| && p[..|root|] == root
  }

  /** `path.relative_to(root)`. */
  function Relative(root: Path, p: Path): (r: Path)
    requires Below(root, p)
    ensures root + r == p
  {
    p[|root|..]
  }

  /** `texts` once `read_text_from_file` has read each of `paths` in turn. */
  function ReadAll(dec: Decoders, root: Path, texts: seq<(Path, string)>, paths: seq<Path>): (r: seq<(Path, string)>)
    requires IsDict(texts)
    requires forall p :: p in paths ==> Below(root, p)
    ensures IsDict(r)
  {
    if paths == [] then texts
    else
      var p := paths[|paths| - 1];
      Set(ReadAll(dec, root, texts, paths[..|paths| - 1]), Relative(root, p), FileText(dec, p))
  }

  /** Every value of `texts` is the text of the file at its key. */
  ghost predicate TextsMatch(dec: Decoders, root: Path, texts: seq<(Path, string)>) {
    forall i :: 0 <= i < |texts| ==> texts[i].1 == FileText(dec, root + texts[i].0)
  }

  /** Storing `f(p)` under the key of `p` keeps every value equal to `f` of
      the full path of its key. */
  lemma SetKeepsMatch<V>(f: Path -> V, root: Path, texts: seq<(Path, V)>, p: Path)
    requires IsDict(texts) && Below(root, p)
    requires forall i :: 0 <= i < |texts| ==> texts[i].1 == f(root + texts[i].0)
    ensures var r := Set(texts, Relative(root, p), f(p));
      forall i :: 0 <= i < |r| ==> r[i].1 == f(root + r[i].0)
  {
    var k := Relative(root, p);
    var r := Set(texts, k, f(p));
    SetKeys(texts, k, f(p));
    forall i | 0 <= i < |r| ensures r[i].1 == f(root + r[i].0) {
      if r[i].0 != k {
        if k in Keys(texts) {
          assert r[i] == texts[i];
        } else {
          assert r == texts + [(k, f(p))];
        }
      }
    }
  }

  lemma SetMatches(dec: Decoders, root: Path, texts: seq<(Path, string)>, p: Path)
    requires IsDict(texts) && Below(root, p) && TextsMatch(dec, root, texts)
    ensures TextsMatch(dec, root, Set(texts, Relative(root, p), FileText(dec, p)))
  {
    SetKeepsMatch(q => FileText(dec, q), root, texts, p);
  }

  lemma ReadAllPrefix(dec: Decoders, root: Path, texts: seq<(Path, string)>, paths: seq<Path>, i: nat)
    requires IsDict(texts) && i < |paths|
    requires forall p :: p in paths ==> Below(root, p)
    ensures ReadAll(dec, root, texts, paths[..i + 1])
      == Set(ReadAll(dec, root, texts, paths[..i]), Relative(root, paths[i]), FileText(dec, paths[i]))
  {
    assert paths[..i + 1][..i] == paths[..i];
  }

  /** One entry per file, keyed by the path relative to the root, including
      the files with an unsupported suffix. Keys already present stay. */
  lemma {:induction false} ReadAllKeys(dec: Decoders, root: Path, texts: seq<(Path, string)>, paths: seq<Path>)
    requires IsDict(texts)
    requires forall p :: p in paths ==> Below(root, p)
    ensures forall k :: k in Keys(ReadAll(dec, root, texts, paths)) <==> k in Keys(texts) || root + k in paths
  {
    if paths != [] {
      var init := paths[..|paths| - 1];
      var p := paths[|paths| - 1];
      ReadAllKeys(dec, root, texts, init);
      var d := ReadAll(dec, root, texts, init);
      SetKeys(d, Relative(root, p), FileText(dec, p));
      assert ReadAll(dec, root, texts, paths) == Set(d, Relative(root, p), FileText(dec, p));
      forall k ensures k in Keys(ReadAll(dec, root, texts, paths)) <==> k in Keys(texts) || root + k in paths {
        assert (root + k)[|root|..] == k;
        assert root + k in paths <==> root + k in init || root + k == p;
      }
    }
  }

  /** Each value `read_text_from_file` stores is the text of the file at its key. */
  lemma {:induction false} ReadAllMatches(dec: Decoders, root: Path, texts: seq<(Path, string)>, paths: seq<Path>)
    requires IsDict(texts)
    requires forall p :: p in paths ==> Below(root, p)
    requires TextsMatch(dec, root, texts)
    ensures TextsMatch(dec, root, ReadAll(dec, root, texts, paths))
  {
    if paths != [] {
      var init := paths[..|paths| - 1];
      ReadAllMatches(dec, root, texts, init);
      SetMatches(dec, root, ReadAll(dec, root, texts, init), paths[|paths| - 1]);
    }
  }

  /** What `extract` returns on a fresh object: exactly the files of the
      tree, keyed by relative path, each with its text; an empty folder gives
      an empty dict. */
  lemma ExtractResult(dec: Decoders, root: Path, tree: seq<Node>)
    ensures forall p :: p in FilesIn(root, tree) ==> Below(root, p)
    ensures var r := ReadAll(dec, root, [], FilesIn(root, tree));
      && (forall k :: k in Keys(r) <==> Reaches(tree, k))
      && TextsMatch(dec, root, r)
      && (tree == [] ==> r == [])
  {
    ReadAllKeys(dec, root, [], FilesIn(root, tree));
    ReadAllMatches(dec, root, [], FilesIn(root, tree));
    forall k ensures root + k in FilesIn(root, tree) <==> Reaches(tree, k) {
      FilesInReaches(root, tree, root + k);
      assert (root + k)[..|root|] == root && (root + k)[|root|..] == k;
      if k == [] {
        assert !Reaches(tree, k);
      }
    }
  }

  // ---------------------------------------------------------------------
  // The class
  // ---------------------------------------------------------------------

  class TextExtraction {
    const mainFolderPath: Path
    /** The entries of the main folder: the file system this object sees. */
    const tree: seq<Node>
    var fullPaths: seq<Path>
    var texts: seq<(Path, string)>

    ghost predicate Valid()
      reads this
    {
      && IsDict(texts)
      && (forall p :: p in fullPaths ==> Below(mainFolderPath, p))
      && TextsMatch(Dec, mainFolderPath, texts)
    }

    /** The decoders behind every read. */
    const Dec: Decoders

    constructor (mainFolderPath: Path, tree: seq<Node>, dec: Decoders)
      ensures Valid()
      ensures this.mainFolderPath == mainFolderPath && this.tree == tree && Dec == dec
      ensures fullPaths == [] && texts == []
    {
      this.mainFolderPath := mainFolderPath;
      this.tree := tree;
      Dec := dec;
      fullPaths := [];
      texts := [];
    }

    /** `lemmatization_and_punct_clean`: tokenize, send each token to the
        stemmer or the lemmatizer, join with spaces, drop punctuation. */
    static method LemmatizationAndPunctClean(kit: Toolkit, text: string) returns (r: string)
      ensures r == Normalize(kit, text)
    {
      var lemmatizedWords: seq<string> := [];
      var tokens := kit.tokenize(text);
      for i := 0 to |tokens|
        invariant lemmatizedWords == ProcessAll(kit, tokens[..i])
      {
        var token := tokens[i];
        assert tokens[..i + 1][..i] == tokens[..i];
        if HasCyrillic(token) {
          lemmatizedWords := lemmatizedWords + [kit.stem(token)];
        } else {
          lemmatizedWords := lemmatizedWords + [kit.lemmatize(token)];
        }
      }
      assert tokens[..|tokens|] == tokens;
      var lemmed := JoinSpace(lemmatizedWords);
      r := Clean(kit, lemmed);
    }

    /** `get_paths(folderPath)`, for a folder below the main folder whose
        entries are `entries`: appends the full path of every file below it. */
    method GetPaths(folderPath: Path, entries: seq<Node>)
      requires Valid() && Below(mainFolderPath, folderPath)
      modifies this
      ensures Valid()
      ensures fullPaths == old(fullPaths) + FilesIn(folderPath, entries)
      ensures texts == old(texts)
      decreases entries
    {
      for i := 0 to |entries|
        invariant Valid()
        invariant fullPaths == old(fullPaths) + FilesIn(folderPath, entries[..i])
        invariant texts == old(texts)
      {
        assert entries[..i + 1][..i] == entries[..i];
        match entries[i]
        case Folder(name, children) =>
          assert folderPath + [name] == (folderPath + [name])[..|folderPath|] + [name];
          GetPaths(folderPath + [name], children);
        case File(name) =>
          assert (folderPath + [name])[..|mainFolderPath|] == folderPath[..|mainFolderPath|];
          fullPaths := fullPaths + [folderPath + [name]];
      }
      assert entries[..|entries|] == entries;
    }

    /** `read_text_from_file(path)`: stores the file's text under its path
        relative to the main folder. */
    method ReadTextFromFile(path: Path)
      requires Valid() && Below(mainFolderPath, path)
      modifies this
      ensures Valid()
      ensures texts == Set(old(texts), Relative(mainFolderPath, path), FileText(Dec, path))
      ensures fullPaths == old(fullPaths)
    {
      var extension := Suffix(Name(path));
      var relativePath := Relative(mainFolderPath, path);
      var fileText := "";
      if extension in PlainTextSuffixes {
        fileText := Dec.readUtf8(path);
      } else if extension == ".doc" || extension == ".docx" {
        fileText := Dec.docx(path);
      } else if extension == ".pdf" {
        var pages := Dec.pdfPages(path);
        for i := 0 to |pages|
          invariant fileText == Concat(pages[..i])
        {
          assert pages[..i + 1][..i] == pages[..i];
          fileText := fileText + pages[i];
        }
        assert pages[..|pages|] == pages;
      }
      assert fileText == FileText(Dec, path);
      SetMatches(Dec, mainFolderPath, texts, path);
      texts := Set(texts, relativePath, fileText);
    }

    /** `extract()`: collects the paths below the main folder, reads every
        recorded path, and returns (a copy of) the dict. */
    method Extract() returns (r: seq<(Path, string)>)
      requires Valid()
      modifies this
      ensures Valid()
      ensures fullPaths == old(fullPaths) + FilesIn(mainFolderPath, tree)
      ensures texts == ReadAll(Dec, mainFolderPath, old(texts), fullPaths)
      ensures r == texts
    {
      assert Below(mainFolderPath, mainFolderPath);
      GetPaths(mainFolderPath, tree);
      var paths := fullPaths;
      ghost var texts0 := old(texts);
      assert IsDict(texts0) && forall p :: p in paths ==> Below(mainFolderPath, p);
      for i := 0 to |paths|
        invariant Valid() && fullPaths == paths
        invariant texts == ReadAll(Dec, mainFolderPath, texts0, paths[..i])
      {
        var path := paths[i];
        ReadAllPrefix(Dec, mainFolderPath, texts0, paths, i);
        ReadTextFromFile(path);
      }
      assert paths[..|paths|] == paths;
      r := texts;
    }
  }
}
