/** The editor language chosen for a file name (`getLanguage` in main.js). */
module Language {
  import opened Strings

  /** The extensions the fixed table recognises; any other maps to "plaintext". */
  const KnownExtensions: set<string> := {"html", "css", "js", "xml", "json"}

  /** The language tags `getLanguage` can return. */
  datatype Lang = Html | Css | JavaScript | Xml | Json | PlainText {
    /** The tag string handed to the editor. */
    function Tag(): (tag: string) {
      match this
      case Html => "html"
      case Css => "css"
      case JavaScript => "javascript"
      case Xml => "xml"
      case Json => "json"
      case PlainText => "plaintext"
    }
  }

  /** The table of the `switch`: matching is exact, so case matters. */
  function LanguageOfExtension(ext: string): (lang: Lang)
    ensures lang == PlainText <==> ext !in KnownExtensions
  {
    if ext == "html" then Html
    else if ext == "css" then Css
    else if ext == "js" then JavaScript
    else if ext == "xml" then Xml
    else if ext == "json" then Json
    else PlainText
  }

  /**
   * The language tag of a file: the table applied to the text after the last
   * dot. Each tag is produced by exactly one extension, and "plaintext" by
   * every extension outside the table.
   */
  function GetLanguage(fileName: string): (lang: Lang)
    ensures lang == Html <==> LastSegment(fileName) == "html"
    ensures lang == Css <==> LastSegment(fileName) == "css"
    ensures lang == JavaScript <==> LastSegment(fileName) == "js"
    ensures lang == Xml <==> LastSegment(fileName) == "xml"
    ensures lang == Json <==> LastSegment(fileName) == "json"
    ensures lang == PlainText <==> LastSegment(fileName) !in KnownExtensions
  {
    var ext := LastSegment(fileName);
    ExtensionTable(ext);
    LanguageOfExtension(ext)
  }

  /** Each tag of the table comes from exactly one extension. */
  lemma ExtensionTable(ext: string)
    ensures LanguageOfExtension(ext) == Html <==> ext == "html"
    ensures LanguageOfExtension(ext) == Css <==> ext == "css"
    ensures LanguageOfExtension(ext) == JavaScript <==> ext == "js"
    ensures LanguageOfExtension(ext) == Xml <==> ext == "xml"
    ensures LanguageOfExtension(ext) == Json <==> ext == "json"
    ensures LanguageOfExtension(ext) == PlainText <==> ext !in KnownExtensions
  {
  }

  /** A name `stem.ext` with a dot-free `ext` takes the language of `ext`, whatever the stem. */
  lemma LanguageOfDottedName(stem: string, ext: string)
    requires '.' !in ext
    ensures GetLanguage(stem + "." + ext) == LanguageOfExtension(ext)
  {
    LastSegmentOfDotted(stem, ext);
  }

  /** A name without a dot is looked up whole, so a file called `css` is CSS. */
  lemma LanguageOfDotlessName(name: string)
    requires '.' !in name
    ensures GetLanguage(name) == LanguageOfExtension(name)
  {
    LastSegmentOfDotless(name);
  }

  /** Upper-case extensions are not recognised: `foo.JS` is plain text. */
  lemma UpperCaseExtensionIsPlainText()
    ensures GetLanguage("foo.JS") == PlainText
  {
    assert "foo.JS" == "foo" + "." + "JS";
    LanguageOfDottedName("foo", "JS");
  }

  /** An extension outside the table is plain text. */
  lemma UnknownExtensionIsPlainText()
    ensures GetLanguage("foo.unknownext") == PlainText
  {
    assert "foo.unknownext" == "foo" + "." + "unknownext";
    LanguageOfDottedName("foo", "unknownext");
  }

  /** A trailing dot leaves an empty extension, which is plain text. */
  lemma EmptyExtensionIsPlainText()
    ensures GetLanguage("foo.") == PlainText
  {
    assert "foo." == "foo" + "." + "";
    LanguageOfDottedName("foo", "");
  }

  /** Only the last of several dots counts: `a.b.json` is JSON. */
  lemma LastOfManyDotsCounts()
    ensures GetLanguage("a.b.json") == Json
  {
    assert "a.b.json" == "a.b" + "." + "json";
    LanguageOfDottedName("a.b", "json");
  }

  /** A file called `css`, without any dot, is CSS. */
  lemma DotlessNameIsItsOwnExtension()
    ensures GetLanguage("css") == Css
  {
    LanguageOfDotlessName("css");
  }

  /**
   * The strings `getLanguage` returns, stated on the tags themselves: each
   * tag string comes from exactly one extension, "javascript" from "js",
   * and "plaintext" from every extension outside the table.
   */
  lemma GetLanguageTag(fileName: string)
    ensures GetLanguage(fileName).Tag() == "html" <==> LastSegment(fileName) == "html"
    ensures GetLanguage(fileName).Tag() == "css" <==> LastSegment(fileName) == "css"
    ensures GetLanguage(fileName).Tag() == "javascript" <==> LastSegment(fileName) == "js"
    ensures GetLanguage(fileName).Tag() == "xml" <==> LastSegment(fileName) == "xml"
    ensures GetLanguage(fileName).Tag() == "json" <==> LastSegment(fileName) == "json"
    ensures GetLanguage(fileName).Tag() == "plaintext" <==> LastSegment(fileName) !in KnownExtensions
  {
    TagsDistinct(GetLanguage(fileName));
  }

  /** Each language has its own tag string. */
  lemma TagsDistinct(lang: Lang)
    ensures lang.Tag() == "html" <==> lang == Html
    ensures lang.Tag() == "css" <==> lang == Css
    ensures lang.Tag() == "javascript" <==> lang == JavaScript
    ensures lang.Tag() == "xml" <==> lang == Xml
    ensures lang.Tag() == "json" <==> lang == Json
    ensures lang.Tag() == "plaintext" <==> lang == PlainText
  {
  }
}
