/** File-type dispatch of `get_loader_from_file`: which document loader a path
    selects. Loaders are named by kind; each is built over the unchanged path.
    Lemmas marked `{:induction false}` that do not recurse carry it to keep
    Dafny's automatic induction out of their proofs, which only call other lemmas. */
module Loaders {
  import opened PyStr
  import opened PosixPath

  datatype LoaderKind =
    | PyMuPdf
    | UnstructuredPowerPoint
    | UnstructuredExcel
    | UnstructuredWordDocument
    | Text
    | Notebook
    | UnstructuredMarkdown
    | UnstructuredEPub
    | Csv
    | UnstructuredHtml
    | ChatGpt
    | Json(jqSchema: string, textContent: bool)
    | UnstructuredEmail
    | EverNote
    | Mhtml
    | UnstructuredXml
    | UnstructuredOdt
    | UnstructuredFile

  /** Final components with these endings get a JSON loader of their own. */
  const ChatGptExportName := "fake_conversations.json"
  const TextArrayName := "text_array.json"

  /** A JSON array of strings: one document per element. */
  const TextArrayLoader := Json(".[]", true)
  /** Any other JSON file: the `content` of every entry of `messages`. */
  const MessagesLoader := Json(".messages[].content", false)

  /** The dispatch key: the extension of the final component, without its dot, lower-cased. */
  function FileType(path: string): (k: string)
    ensures Lower(k) == k
    ensures forall i :: 0 <= i < |k| ==> k[i] != '.'
  {
    SplitExtSpec(path);
    LoweredKeyShape(SplitExt(path).1, Basename(path));
    Lower(Drop(SplitExt(path).1, 1))
  }

  /** The extension without its dot, lower-cased, is lower-case and holds no dot. */
  lemma LoweredKeyShape(e: string, b: string)
    requires e != "" ==> IsExtensionOf(e, b)
    ensures var k := Lower(Drop(e, 1)); Lower(k) == k && forall i :: 0 <= i < |k| ==> k[i] != '.'
  {
    var d := Drop(e, 1);
    LowerIdempotent(d);
    forall i | 0 <= i < |d| ensures Lower(d)[i] != '.' {
      assert d[i] == e[i + 1];
      LowerKeepsCaseless(d[i], '.');
    }
  }

  /** `get_loader_from_file(path)`. The chain is the table: each recognised
      extension selects its one loader, `.json` is settled by the final
      component's name, and every other key, the empty one included, falls
      back to the generic loader. */
  function LoaderFromFile(path: string): (r: LoaderKind)
    ensures r == TableDispatch(FileType(path), Basename(path))
  {
    ChainIsTable(path);
    Dispatch(FileType(path), Basename(path))
  }

  lemma {:induction false} ChainIsTable(path: string)
    ensures Dispatch(FileType(path), Basename(path)) == TableDispatch(FileType(path), Basename(path))
  {
    if EndsWith(Basename(path), ChatGptExportName) || EndsWith(Basename(path), TextArrayName) {
      SpecialNamesAreJson(path);
    }
    DispatchIsTable(FileType(path), Basename(path));
  }

  /** The if/elif chain, in the source's order, over the dispatch key and the
      final component of the path. */
  function Dispatch(fileType: string, name: string): LoaderKind {
    if fileType in ["pdf"] then PyMuPdf
    else if fileType in ["ppt", "pptx"] then UnstructuredPowerPoint
    else if fileType in ["xls", "xlsx"] then UnstructuredExcel
    else if fileType in ["doc", "docx"] then UnstructuredWordDocument
    else if fileType in ["txt"] then Text
    else if fileType in ["ipynb"] then Notebook
    else if fileType in ["md"] then UnstructuredMarkdown
    else if fileType in ["epub"] then UnstructuredEPub
    else if fileType in ["csv"] then Csv
    else if fileType in ["html", "htm"] then UnstructuredHtml
    else if EndsWith(name, ChatGptExportName) then ChatGpt
    else if EndsWith(name, TextArrayName) then TextArrayLoader
    else if fileType in ["json"] then MessagesLoader
    else if fileType in ["eml"] then UnstructuredEmail
    else if fileType in ["enex"] then EverNote
    else if fileType in ["mht"] then Mhtml
    else if fileType in ["xml"] then UnstructuredXml
    else if fileType in ["odt"] then UnstructuredOdt
    else UnstructuredFile
  }

  /** The same dispatch written as a table from extension to loader, with the
      JSON special cases and the fallback kept apart. */
  const ExtensionTable: map<string, LoaderKind> := map[
    "pdf" := PyMuPdf,
    "ppt" := UnstructuredPowerPoint, "pptx" := UnstructuredPowerPoint,
    "xls" := UnstructuredExcel, "xlsx" := UnstructuredExcel,
    "doc" := UnstructuredWordDocument, "docx" := UnstructuredWordDocument,
    "txt" := Text,
    "ipynb" := Notebook,
    "md" := UnstructuredMarkdown,
    "epub" := UnstructuredEPub,
    "csv" := Csv,
    "html" := UnstructuredHtml, "htm" := UnstructuredHtml,
    "eml" := UnstructuredEmail,
    "enex" := EverNote,
    "mht" := Mhtml,
    "xml" := UnstructuredXml,
    "odt" := UnstructuredOdt
  ]

  /** The loader for a `.json` file, chosen by the ending of its final component. */
  function JsonLoaderFor(name: string): LoaderKind {
    if EndsWith(name, ChatGptExportName) then ChatGpt
    else if EndsWith(name, TextArrayName) then TextArrayLoader
    else MessagesLoader
  }

  lemma LowerJson()
    ensures Lower("json") == "json" && Lower("JSON") == "json"
  {
    assert Lower("json")[0] == 'j' && Lower("json")[1] == 's';
    assert Lower("json")[2] == 'o' && Lower("json")[3] == 'n';
    assert Lower("JSON")[0] == 'j' && Lower("JSON")[1] == 's';
    assert Lower("JSON")[2] == 'o' && Lower("JSON")[3] == 'n';
  }

  /** The two special names end in `.json` after a non-dot character. */
  lemma JsonNameEnding(b: string)
    ensures EndsWith(b, ChatGptExportName) ==> b[|b| - 6] == 's' && IsExtensionOf(".json", b)
    ensures EndsWith(b, TextArrayName) ==> b[|b| - 6] == 'y' && IsExtensionOf(".json", b)
  {
    if EndsWith(b, ChatGptExportName) || EndsWith(b, TextArrayName) {
      if EndsWith(b, ChatGptExportName) {
        assert b[|b| - 6..] == ChatGptExportName[|ChatGptExportName| - 6..];
      } else {
        assert b[|b| - 6..] == TextArrayName[|TextArrayName| - 6..];
      }
      assert b[|b| - 5..] == b[|b| - 6..][1..];
    }
  }

  /** The two special names are `.json` files, so no extension rule ahead of
      them in the chain can take them. */
  lemma {:induction false} SpecialNamesAreJson(path: string)
    requires EndsWith(Basename(path), ChatGptExportName) || EndsWith(Basename(path), TextArrayName)
    ensures FileType(path) == "json"
  {
    JsonNameEnding(Basename(path));
    ExtensionIs(path, ".json");
    assert Drop(".json", 1) == "json";
    LowerJson();
  }

  /** No final component ends in both special names. */
  lemma SpecialNamesExclusive(name: string)
    ensures !(EndsWith(name, ChatGptExportName) && EndsWith(name, TextArrayName))
  {
    JsonNameEnding(name);
  }

  /** The table reading of the dispatch: look the key up, settle `json` by the
      final component's name, and fall back to the generic loader. */
  function TableDispatch(fileType: string, name: string): LoaderKind {
    if fileType in ExtensionTable then ExtensionTable[fileType]
    else if fileType == "json" then JsonLoaderFor(name)
    else UnstructuredFile
  }

  /** The table holds neither `json` nor a JSON, ChatGPT or generic loader. */
  lemma TableEntries(fileType: string)
    ensures "json" !in ExtensionTable && "" !in ExtensionTable
    ensures fileType in ExtensionTable ==>
      !ExtensionTable[fileType].Json? && ExtensionTable[fileType] != ChatGpt
      && ExtensionTable[fileType] != UnstructuredFile
  {
  }

  /** The chain agrees with the table whenever the special names come with the `json` key. */
  lemma DispatchIsTable(fileType: string, name: string)
    requires EndsWith(name, ChatGptExportName) || EndsWith(name, TextArrayName) ==> fileType == "json"
    ensures Dispatch(fileType, name) == TableDispatch(fileType, name)
  {
    TableEntries(fileType);
    if fileType in ExtensionTable {
      DispatchTableKey(fileType, name);
    } else if fileType == "json" {
      DispatchJsonKey(name);
    } else {
      DispatchOtherKey(fileType, name);
    }
  }

  lemma DispatchJsonKey(name: string)
    ensures Dispatch("json", name) == JsonLoaderFor(name)
  {
  }

  lemma DispatchOtherKey(fileType: string, name: string)
    requires fileType !in ExtensionTable && fileType != "json"
    requires !EndsWith(name, ChatGptExportName) && !EndsWith(name, TextArrayName)
    ensures Dispatch(fileType, name) == UnstructuredFile
  {
  }

  /** A recognised key reaches its own rule of the chain. The keys are taken
      in groups so that each proof unfolds the chain for a few of them only. */
  lemma DispatchTableKey(fileType: string, name: string)
    requires fileType in ExtensionTable
    requires !EndsWith(name, ChatGptExportName) && !EndsWith(name, TextArrayName)
    ensures Dispatch(fileType, name) == ExtensionTable[fileType]
  {
    if fileType == "pdf" || fileType == "ppt" || fileType == "pptx" || fileType == "xls" || fileType == "xlsx" {
      DispatchKeysA(fileType, name);
    } else if fileType == "doc" || fileType == "docx" || fileType == "txt" || fileType == "ipynb" || fileType == "md" {
      DispatchKeysB(fileType, name);
    } else if fileType == "epub" || fileType == "csv" || fileType == "html" || fileType == "htm" {
      DispatchKeysC(fileType, name);
    } else if fileType == "eml" || fileType == "enex" || fileType == "mht" || fileType == "xml" || fileType == "odt" {
      DispatchKeysD(fileType, name);
    }
  }

  lemma DispatchKeysA(fileType: string, name: string)
    requires fileType == "pdf" || fileType == "ppt" || fileType == "pptx" || fileType == "xls" || fileType == "xlsx"
    requires !EndsWith(name, ChatGptExportName) && !EndsWith(name, TextArrayName)
    ensures Dispatch(fileType, name) == ExtensionTable[fileType]
  {
  }

  lemma DispatchKeysB(fileType: string, name: string)
    requires fileType == "doc" || fileType == "docx" || fileType == "txt" || fileType == "ipynb" || fileType == "md"
    requires !EndsWith(name, ChatGptExportName) && !EndsWith(name, TextArrayName)
    ensures Dispatch(fileType, name) == ExtensionTable[fileType]
  {
  }

  lemma DispatchKeysC(fileType: string, name: string)
    requires fileType == "epub" || fileType == "csv" || fileType == "html" || fileType == "htm"
    requires !EndsWith(name, ChatGptExportName) && !EndsWith(name, TextArrayName)
    ensures Dispatch(fileType, name) == ExtensionTable[fileType]
  {
  }

  lemma DispatchKeysD(fileType: string, name: string)
    requires fileType == "eml" || fileType == "enex" || fileType == "mht" || fileType == "xml" || fileType == "odt"
    requires !EndsWith(name, ChatGptExportName) && !EndsWith(name, TextArrayName)
    ensures Dispatch(fileType, name) == ExtensionTable[fileType]
  {
  }

  /** Each loader kind that does not come from the table is selected exactly under its condition. */
  lemma TableDispatchSelects(fileType: string, name: string)
    ensures TableDispatch(fileType, name) == ChatGpt <==>
      fileType == "json" && EndsWith(name, ChatGptExportName)
    ensures TableDispatch(fileType, name) == TextArrayLoader <==>
      fileType == "json" && EndsWith(name, TextArrayName)
    ensures TableDispatch(fileType, name) == MessagesLoader <==>
      fileType == "json" && !EndsWith(name, ChatGptExportName) && !EndsWith(name, TextArrayName)
    ensures TableDispatch(fileType, name) == UnstructuredFile <==>
      fileType !in ExtensionTable && fileType != "json"
    ensures TableDispatch("", name) == UnstructuredFile
  {
    TableEntries(fileType);
    SpecialNamesExclusive(name);
  }

  /** A final component ending in `fake_conversations.json` selects the ChatGPT
      loader, one ending in `text_array.json` the array loader, and nothing else does. */
  lemma {:induction false} SpecialNamesSelect(path: string)
    ensures LoaderFromFile(path) == ChatGpt <==> EndsWith(Basename(path), ChatGptExportName)
    ensures LoaderFromFile(path) == TextArrayLoader <==> EndsWith(Basename(path), TextArrayName)
  {
    TableDispatchSelects(FileType(path), Basename(path));
    if EndsWith(Basename(path), ChatGptExportName) || EndsWith(Basename(path), TextArrayName) {
      SpecialNamesAreJson(path);
    }
  }

  /** Any other `.json` file gets the messages loader. */
  lemma {:induction false} PlainJsonSelectsMessages(path: string)
    ensures LoaderFromFile(path) == MessagesLoader <==>
      FileType(path) == "json"
      && !EndsWith(Basename(path), ChatGptExportName) && !EndsWith(Basename(path), TextArrayName)
  {
    TableDispatchSelects(FileType(path), Basename(path));
  }

  /** The generic loader is chosen exactly when no rule recognises the key. */
  lemma {:induction false} FallbackExactlyWhenUnrecognised(path: string)
    ensures LoaderFromFile(path) == UnstructuredFile <==>
      FileType(path) !in ExtensionTable && FileType(path) != "json"
  {
    TableDispatchSelects(FileType(path), Basename(path));
  }

  /** A path whose final component has no extension gets the generic loader. */
  lemma {:induction false} NoExtensionFallsBack(path: string)
    requires HasNoExtension(Basename(path))
    ensures LoaderFromFile(path) == UnstructuredFile
  {
    NoExtensionHasEmptyKey(path);
    EmptyKeyFallsBack(path);
  }

  lemma {:induction false} EmptyKeyFallsBack(path: string)
    requires FileType(path) == ""
    ensures LoaderFromFile(path) == UnstructuredFile
  {
    FallbackExactlyWhenUnrecognised(path);
    TableEntries("");
  }

  lemma {:induction false} NoExtensionHasEmptyKey(path: string)
    requires HasNoExtension(Basename(path))
    ensures FileType(path) == ""
  {
    NoExtensionIs(path);
  }

  /** Directories on the path never influence the choice. */
  lemma {:induction false} DispatchOnFinalComponent(path: string)
    ensures FileType(Basename(path)) == FileType(path)
    ensures LoaderFromFile(Basename(path)) == LoaderFromFile(path)
  {
    ExtensionOfBasename(path);
    BasenameIdempotent(path);
  }

  /** The key is lower-cased: `REPORT.PDF` and `report.pdf` have the same one. */
  lemma {:induction false} FileTypeIgnoresCase(path: string)
    ensures FileType(Lower(path)) == FileType(path)
  {
    var e := SplitExt(path).1;
    ExtensionLower(path);
    LowerDrop(e, 1);
    LowerIdempotent(Drop(e, 1));
  }

  /** Two paths whose final components differ only in ASCII case select the same
      loader, unless they are `.json` files, whose special names are matched
      case-sensitively. */
  lemma {:induction false} DispatchIgnoresCase(p: string, q: string)
    requires Lower(Basename(p)) == Lower(Basename(q))
    requires FileType(p) != "json"
    ensures LoaderFromFile(p) == LoaderFromFile(q)
  {
    SameKeyUpToCase(p, q);
    TableDispatchIgnoresName(FileType(p), Basename(p), Basename(q));
  }

  lemma {:induction false} SameKeyUpToCase(p: string, q: string)
    requires Lower(Basename(p)) == Lower(Basename(q))
    ensures FileType(p) == FileType(q)
  {
    DispatchOnFinalComponent(p);
    DispatchOnFinalComponent(q);
    FileTypeIgnoresCase(Basename(p));
    FileTypeIgnoresCase(Basename(q));
  }

  /** Outside `.json` files the table reading never looks at the name. */
  lemma TableDispatchIgnoresName(fileType: string, a: string, b: string)
    requires fileType != "json"
    ensures TableDispatch(fileType, a) == TableDispatch(fileType, b)
  {
  }

  /** The special names are matched case-sensitively, while the key is not:
      `TEXT_ARRAY.JSON` is a plain `.json` file for the chain. */
  lemma {:induction false} UpperCaseJsonIsPlain(path: string)
    requires EndsWith(Basename(path), ".JSON")
    requires |Basename(path)| > 5 && Basename(path)[|Basename(path)| - 6] != '.'
    ensures LoaderFromFile(path) == MessagesLoader
  {
    var b := Basename(path);
    ExtensionIs(path, ".JSON");
    assert Drop(".JSON", 1) == "JSON";
    LowerJson();
    assert b[|b| - 1] == 'N';
    PlainJsonSelectsMessages(path);
  }

  /** A leading dot does not start an extension: a hidden file such as
      `.pdf` or `docs/.csv` is not sent to the loader its name suggests. */
  lemma {:induction false} HiddenFileFallsBack(path: string, name: string)
    requires Basename(path) == "." + name
    requires forall i :: 0 <= i < |name| ==> name[i] != '.'
    ensures LoaderFromFile(path) == UnstructuredFile
  {
    HiddenNameHasNoExtension(Basename(path), name);
    NoExtensionFallsBack(path);
  }

  lemma {:induction false} HiddenNameHasNoExtension(b: string, name: string)
    requires b == "." + name
    requires forall i :: 0 <= i < |name| ==> name[i] != '.'
    ensures HasNoExtension(b)
  {
    forall i | 1 <= i < |b| ensures b[i] != '.' {
      assert b[i] == name[i - 1];
    }
  }
}
