/**
 * `validateFile` of service/file_service.go (lines 202-239): the checks an
 * uploaded file must pass, in the order the code makes them, against the
 * configured size limit and comma-separated allow list.
 */
module Validation {
  import opened Wrappers
  import opened Models
  import opened FileNames

  /** The reasons validateFile rejects a file, one per error it returns. */
  datatype ValidationError = EmptyFile | TooLarge | EmptyName | UnsupportedType

  /** The entries of the allow list config/config.go installs when none is configured. */
  const DEFAULT_ALLOWED_ENTRIES: seq<string> :=
    ["jpg", "jpeg", "png", "gif", "pdf", "doc", "docx", "xls", "xlsx", "txt", "zip", "rar"]

  /** The size limit config/config.go installs when none is configured (100 MiB). */
  const DEFAULT_MAX_SIZE: int := 104857600

  /** The extension validateFile compares: lower-cased, without its leading dot. */
  function ExtensionKey(name: string): (key: string)
    ensures Ext(name) == "" ==> key == ""
    ensures Ext(name) != "" ==> ToLower(Ext(name)) == "." + key
  {
    var e := ToLower(Ext(name));
    LowerDotted(Ext(name));
    if e != "" then e[1..] else e
  }

  /** The key holds no '.', no '/' and no capital letter. */
  lemma ExtensionKeyPlain(name: string)
    ensures var key := ExtensionKey(name);
      NoDotOrSlash(key) && forall k :: 0 <= k < |key| ==> !('A' <= key[k] <= 'Z')
  {
    LowerDotted(Ext(name));
  }

  /** Lower-casing a dotted extension keeps its dot and adds no '.', '/' or capital. */
  lemma LowerDotted(x: string)
    requires x == "" || (x[0] == '.' && NoDotOrSlash(x[1..]))
    ensures var e := ToLower(x);
      e == "" || (e == "." + e[1..] && NoDotOrSlash(e[1..]) && forall k :: 0 <= k < |e[1..]| ==> !('A' <= e[1..][k] <= 'Z'))
  {
    var e := ToLower(x);
    if x != "" {
      assert e[0] == '.';
      forall k | 0 <= k < |e[1..]|
        ensures e[1..][k] != '.' && e[1..][k] != '/' && !('A' <= e[1..][k] <= 'Z')
      {
        assert e[1..][k] == e[k + 1];
        assert x[1..][k] == x[k + 1];
      }
      assert e == [e[0]] + e[1..];
    }
  }

  /** Some entry of the allow list, with white space trimmed, equals `key`. */
  predicate Allowed(key: string, allowedTypes: string)
  {
    var entries := Split(allowedTypes);
    exists k :: 0 <= k < |entries| && TrimSpace(entries[k]) == key
  }

  /**
   * The outcome of validateFile for a file of declared size `size` named
   * `name`: the first failing check, or None.
   */
  function Validate(size: int, name: string, maxSize: int, allowedTypes: string): (err: Option<ValidationError>)
    ensures err == Some(EmptyFile) <==> size == 0
    ensures err == Some(TooLarge) <==> size != 0 && size > maxSize
    ensures err == Some(EmptyName) <==> size != 0 && size <= maxSize && name == ""
    ensures err == Some(UnsupportedType) <==>
      size != 0 && size <= maxSize && name != "" && !Allowed(ExtensionKey(name), allowedTypes)
    ensures err == None <==>
      size != 0 && size <= maxSize && name != "" && Allowed(ExtensionKey(name), allowedTypes)
  {
    if size == 0 then Some(EmptyFile)
    else if size > maxSize then Some(TooLarge)
    else if name == "" then Some(EmptyName)
    else if !Allowed(ExtensionKey(name), allowedTypes) then Some(UnsupportedType)
    else None
  }

  /** The search loop of lines 225-232, stopping at the first matching entry. */
  method IsAllowedType(key: string, allowedTypes: string) returns (allowed: bool)
    ensures allowed <==> Allowed(key, allowedTypes)
  {
    var entries := Split(allowedTypes);
    allowed := false;
    var i := 0;
    while i < |entries|
      invariant 0 <= i <= |entries|
      invariant !allowed
      invariant forall k :: 0 <= k < i ==> TrimSpace(entries[k]) != key
    {
      if TrimSpace(entries[i]) == key {
        allowed := true;
        break;
      }
      i := i + 1;
    }
  }

  /** validateFile on an uploaded file header. */
  method ValidateFile(file: UploadFile, maxSize: int, allowedTypes: string) returns (err: Option<ValidationError>)
    ensures err == Validate(file.size, file.filename, maxSize, allowedTypes)
  {
    if file.size == 0 {
      return Some(EmptyFile);
    }
    if file.size > maxSize {
      return Some(TooLarge);
    }
    if file.filename == "" {
      return Some(EmptyName);
    }
    var key := ExtensionKey(file.filename);
    var allowed := IsAllowedType(key, allowedTypes);
    if !allowed {
      return Some(UnsupportedType);
    }
    return None;
  }

  /**
   * A name without an extension passes the type check exactly when some
   * allow-list entry is blank (all white space, or empty as in "jpg,,png").
   */
  lemma NoExtensionNeedsBlankEntry(name: string, allowedTypes: string)
    requires Ext(name) == ""
    ensures Allowed(ExtensionKey(name), allowedTypes) <==>
      exists k :: 0 <= k < |Split(allowedTypes)| && AllSpace(Split(allowedTypes)[k])
  {
    var entries := Split(allowedTypes);
    assert ExtensionKey(name) == "";
    if Allowed("", allowedTypes) {
      var k :| 0 <= k < |entries| && TrimSpace(entries[k]) == "";
      TrimSpaceEmpty(entries[k]);
    }
    if exists k :: 0 <= k < |entries| && AllSpace(entries[k]) {
      var k :| 0 <= k < |entries| && AllSpace(entries[k]);
      TrimSpaceEmpty(entries[k]);
      assert Allowed(ExtensionKey(name), allowedTypes);
      assert 0 <= k < |Split(allowedTypes)| && AllSpace(Split(allowedTypes)[k]);
    }
  }

  /**
   * Renaming a file to its stored name does not change whether it passes:
   * the stored name carries the same extension.
   */
  lemma StoredNameValidatesAlike(size: int, name: string, uuid: string, maxSize: int, allowedTypes: string)
    requires name != "" && IsUuidText(uuid)
    ensures Validate(size, StoredName(name, uuid), maxSize, allowedTypes) == Validate(size, name, maxSize, allowedTypes)
  {
    StoredNameKeepsExt(name, uuid);
  }

  /** A run of lower-case ASCII letters. */
  predicate LowerRun(w: string)
  {
    w == "" || ('a' <= w[0] <= 'z' && LowerRun(w[1..]))
  }

  /** Every entry is a non-empty run of lower-case ASCII letters. */
  predicate LowerWords(ws: seq<string>)
  {
    ws == [] || (ws[0] != "" && LowerRun(ws[0]) && LowerWords(ws[1..]))
  }

  /** The letters of a lower-case run, position by position. */
  lemma {:induction false} LowerRunLetters(w: string)
    requires LowerRun(w)
    ensures forall i :: 0 <= i < |w| ==> 'a' <= w[i] <= 'z'
  {
    if w != "" {
      LowerRunLetters(w[1..]);
      assert forall i :: 1 <= i < |w| ==> w[i] == w[1..][i - 1];
    }
  }

  /**
   * An entry made of lower-case letters only is its own trimmed form, is not
   * blank and holds no comma.
   */
  lemma LowerWordPlain(w: string)
    requires w != "" && LowerRun(w)
    ensures TrimSpace(w) == w && !AllSpace(w) && ',' !in w
  {
    LowerRunLetters(w);
    assert !IsSpace(w[0]) && !IsSpace(w[|w| - 1]);
    assert TrimLeading(w) == w;
  }

  /** Each entry of a list of lower-case words is plain. */
  lemma {:induction false} LowerWordsPlain(ws: seq<string>)
    requires LowerWords(ws)
    ensures forall k :: 0 <= k < |ws| ==> TrimSpace(ws[k]) == ws[k] && !AllSpace(ws[k]) && ',' !in ws[k]
  {
    if ws != [] {
      LowerWordPlain(ws[0]);
      LowerWordsPlain(ws[1..]);
      assert forall k :: 1 <= k < |ws| ==> ws[k] == ws[1..][k - 1];
    }
  }

  /** Each default entry is a lower-case word: its own trimmed form, not blank, comma-free. */
  lemma DefaultEntriesPlain()
    ensures forall k :: 0 <= k < |DEFAULT_ALLOWED_ENTRIES| ==>
      TrimSpace(DEFAULT_ALLOWED_ENTRIES[k]) == DEFAULT_ALLOWED_ENTRIES[k] &&
      !AllSpace(DEFAULT_ALLOWED_ENTRIES[k]) && ',' !in DEFAULT_ALLOWED_ENTRIES[k]
  {
    var e := DEFAULT_ALLOWED_ENTRIES;
    assert LowerWords(e[12..]);
    assert LowerWords(e[11..]);
    assert LowerWords(e[10..]);
    assert LowerWords(e[9..]);
    assert LowerWords(e[8..]);
    assert LowerWords(e[7..]);
    assert LowerWords(e[6..]);
    assert LowerWords(e[5..]);
    assert LowerWords(e[4..]);
    assert LowerWords(e[3..]);
    assert LowerWords(e[2..]);
    assert LowerWords(e[1..]);
    assert e[0..] == e;
    LowerWordsPlain(e);
  }

  /** The default allow list, written as config/config.go joins it, splits back into its entries. */
  lemma DefaultAllowList(allowedTypes: string)
    requires allowedTypes == JoinCommas(DEFAULT_ALLOWED_ENTRIES)
    ensures Split(allowedTypes) == DEFAULT_ALLOWED_ENTRIES
  {
    DefaultEntriesPlain();
    JoinSplit(DEFAULT_ALLOWED_ENTRIES);
  }

  /** Under the default allow list, a key passes exactly when it is one of the default entries. */
  lemma DefaultAllowedIff(key: string, allowedTypes: string)
    requires Split(allowedTypes) == DEFAULT_ALLOWED_ENTRIES
    ensures Allowed(key, allowedTypes) <==> key in DEFAULT_ALLOWED_ENTRIES
  {
    DefaultEntriesPlain();
    var e := DEFAULT_ALLOWED_ENTRIES;
    if key in e {
      var k :| 0 <= k < |e| && e[k] == key;
      assert TrimSpace(Split(allowedTypes)[k]) == key;
    }
  }

  /**
   * The key of a name ending in a dotted suffix without further dots or
   * slashes is that suffix, lower-cased, without its dot.
   */
  lemma DottedSuffixKey(stem: string, dotted: string)
    requires dotted != "" && dotted[0] == '.' && NoDotOrSlash(dotted[1..])
    ensures ExtensionKey(stem + dotted) == ToLower(dotted)[1..]
  {
    ExtOfDottedSuffix(stem, dotted);
  }

  /** Under the default allow list an upper-case extension is folded and accepted. */
  lemma DefaultAcceptsUpperCasePdf(stem: string, size: int, allowedTypes: string)
    requires Split(allowedTypes) == DEFAULT_ALLOWED_ENTRIES
    requires 0 < size <= DEFAULT_MAX_SIZE
    ensures Validate(size, stem + ".PDF", DEFAULT_MAX_SIZE, allowedTypes) == None
  {
    DottedSuffixKey(stem, ".PDF");
    UpperPdfFolds();
    DefaultAllowedIff("pdf", allowedTypes);
    PdfListed();
  }

  /** Lower-casing ".PDF" and dropping the dot gives "pdf". */
  lemma UpperPdfFolds()
    ensures ToLower(".PDF")[1..] == "pdf"
  {
    var e := ToLower(".PDF");
    assert e == ".pdf";
  }

  /** Lower-casing text without capitals changes nothing. */
  lemma LowerKeepsSmall(s: string)
    requires forall k :: 0 <= k < |s| ==> !('A' <= s[k] <= 'Z')
    ensures ToLower(s) == s
  {
  }

  /** "pdf" is one of the default entries. */
  lemma PdfListed()
    ensures "pdf" in DEFAULT_ALLOWED_ENTRIES
  {
    assert DEFAULT_ALLOWED_ENTRIES[4] == "pdf";
  }

  /** Under the default allow list an unlisted extension is rejected. */
  lemma DefaultRejectsExe(stem: string, size: int, allowedTypes: string)
    requires Split(allowedTypes) == DEFAULT_ALLOWED_ENTRIES
    requires 0 < size <= DEFAULT_MAX_SIZE
    ensures Validate(size, stem + ".exe", DEFAULT_MAX_SIZE, allowedTypes) == Some(UnsupportedType)
  {
    DottedSuffixKey(stem, ".exe");
    LowerExeKeeps();
    DefaultAllowedIff("exe", allowedTypes);
    ExeUnlisted();
  }

  /** Lower-casing ".exe" and dropping the dot gives "exe". */
  lemma LowerExeKeeps()
    ensures ToLower(".exe")[1..] == "exe"
  {
    LowerKeepsSmall(".exe");
    assert ".exe"[1..] == "exe";
  }

  /** "exe" is not one of the default entries. */
  lemma ExeUnlisted()
    ensures "exe" !in DEFAULT_ALLOWED_ENTRIES
  {
    forall k | 0 <= k < |DEFAULT_ALLOWED_ENTRIES|
      ensures DEFAULT_ALLOWED_ENTRIES[k] != "exe"
    {
      assert DEFAULT_ALLOWED_ENTRIES[k][0] != 'e' || |DEFAULT_ALLOWED_ENTRIES[k]| != 3;
    }
  }

  /** Under the default allow list a name without an extension is rejected. */
  lemma DefaultRejectsNoExtension(size: int, name: string, allowedTypes: string)
    requires Split(allowedTypes) == DEFAULT_ALLOWED_ENTRIES
    requires name != "" && Ext(name) == ""
    requires 0 < size <= DEFAULT_MAX_SIZE
    ensures Validate(size, name, DEFAULT_MAX_SIZE, allowedTypes) == Some(UnsupportedType)
  {
    DefaultEntriesPlain();
    NoExtensionNeedsBlankEntry(name, allowedTypes);
  }

  /** Allow-list entries are compared as written: an upper-case entry matches nothing. */
  lemma UpperCaseEntryMatchesNothing(name: string)
    requires name != ""
    ensures Validate(10, name, DEFAULT_MAX_SIZE, "PDF") == Some(UnsupportedType)
  {
    SplitAfterPlain("PDF", "");
    assert "PDF" + "" == "PDF";
    assert TrimSpace("PDF") == "PDF";
    var key := ExtensionKey(name);
    ExtensionKeyPlain(name);
    if key != "" {
      assert !('A' <= key[0] <= 'Z');
    }
    assert !Allowed(key, "PDF");
  }
}
