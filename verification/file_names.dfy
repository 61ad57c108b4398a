/**
 * The string operations the file service relies on: Go's `filepath.Ext`,
 * `strings.TrimSuffix`, `filepath.Join`, `strings.ToLower`,
 * `strings.TrimSpace` and `strings.Split`, restricted to ASCII, and the
 * stored-name derivation of `saveFile` (service/file_service.go:251-255).
 */
module FileNames {

  /**
   * `filepath.Ext` scanning the positions below `i` from the right; the
   * positions from `i` on have already been passed over.
   */
  function ExtBelow(s: string, i: nat): (e: string)
    requires i <= |s| && NoDotOrSlash(s[i..])
    ensures e == "" || (e[0] == '.' && NoDotOrSlash(e[1..]))
    ensures |e| <= |s| && e == s[|s| - |e|..]
    decreases i
  {
    if i == 0 then ""
    else if s[i - 1] == '/' then ""
    else if s[i - 1] == '.' then s[i - 1..]
    else
      assert s[i - 1..] == [s[i - 1]] + s[i..];
      ExtBelow(s, i - 1)
  }

  predicate NoDotOrSlash(s: string)
  {
    forall k :: 0 <= k < |s| ==> s[k] != '.' && s[k] != '/'
  }

  /**
   * `filepath.Ext`: the suffix from the final '.' of the last path element,
   * or "" when that element has no '.'.
   */
  function Ext(s: string): (e: string)
    ensures e == "" || (e[0] == '.' && NoDotOrSlash(e[1..]))
    ensures |e| <= |s| && e == s[|s| - |e|..]
  {
    assert s[|s|..] == [];
    ExtBelow(s, |s|)
  }

  /** Passing over positions that hold neither '.' nor '/' does not change the scan. */
  lemma {:induction false} ExtBelowSkips(s: string, i: nat, j: nat)
    requires i <= j <= |s| && NoDotOrSlash(s[i..])
    ensures NoDotOrSlash(s[j..])
    ensures ExtBelow(s, j) == ExtBelow(s, i)
    decreases j - i
  {
    if j > i {
      PlainFrom(s, i, i + 1);
      ExtBelowSkips(s, i + 1, j);
      assert ExtBelow(s, i + 1) == ExtBelow(s, i);
    }
  }

  /** A plain suffix stays plain when it is shortened, position by position. */
  lemma PlainFrom(s: string, i: nat, j: nat)
    requires i <= j <= |s| && NoDotOrSlash(s[i..])
    ensures NoDotOrSlash(s[j..])
    ensures forall k :: i <= k < |s| ==> s[k] != '.' && s[k] != '/'
  {
    forall k | i <= k < |s|
      ensures s[k] != '.' && s[k] != '/'
    {
      assert s[k] == s[i..][k - i];
    }
    forall k | 0 <= k < |s[j..]|
      ensures s[j..][k] != '.' && s[j..][k] != '/'
    {
      assert s[j..][k] == s[k + j];
    }
  }

  /** Scanning inside `a` is the same whether or not a plain `b` follows it. */
  lemma {:induction false} ExtBelowPrefix(a: string, b: string, i: nat)
    requires i <= |a| && NoDotOrSlash(a[i..]) && NoDotOrSlash(b)
    ensures NoDotOrSlash((a + b)[i..])
    ensures ExtBelow(a + b, i) == if ExtBelow(a, i) == "" then "" else ExtBelow(a, i) + b
    decreases i
  {
    assert (a + b)[i..] == a[i..] + b;
    if i > 0 {
      assert (a + b)[i - 1] == a[i - 1];
      if a[i - 1] == '.' {
        assert (a + b)[i - 1..] == a[i - 1..] + b;
      } else if a[i - 1] != '/' {
        assert a[i - 1..] == [a[i - 1]] + a[i..];
        ExtBelowPrefix(a, b, i - 1);
      }
    }
  }

  /** Appending text without '.' or '/' extends a present extension and adds none. */
  lemma ExtOfPlainSuffix(a: string, b: string)
    requires NoDotOrSlash(b)
    ensures Ext(a + b) == if Ext(a) == "" then "" else Ext(a) + b
  {
    var s := a + b;
    assert s[|a|..] == b;
    assert a[|a|..] == [];
    assert s[|s|..] == [];
    ExtBelowSkips(s, |a|, |s|);
    ExtBelowPrefix(a, b, |a|);
  }

  /** Appending an extension makes it the extension of the whole. */
  lemma ExtOfDottedSuffix(a: string, e: string)
    requires e != "" && e[0] == '.' && NoDotOrSlash(e[1..])
    ensures Ext(a + e) == e
  {
    var s := a + e;
    assert s[|a| + 1..] == e[1..];
    assert s[|s|..] == [];
    ExtBelowSkips(s, |a| + 1, |s|);
    assert s[|a|] == '.';
    assert s[|a|..] == e;
  }

  /** `strings.TrimSuffix(name, Ext(name))`: the name without its extension. */
  function Base(name: string): (b: string)
    ensures b + Ext(name) == name
  {
    name[..|name| - |Ext(name)|]
  }

  /** The text of a random UUID: 36 hexadecimal digits and dashes. */
  predicate IsUuidText(u: string)
    ensures IsUuidText(u) ==> NoDotOrSlash(u)
  {
    |u| == 36 && forall k :: 0 <= k < |u| ==> u[k] == '-' || '0' <= u[k] <= '9' || 'a' <= u[k] <= 'f'
  }

  /** `fmt.Sprintf("%s_%s%s", baseName, uuidStr, fileExtension)` in `saveFile`. */
  function StoredName(name: string, uuid: string): string
  {
    Base(name) + "_" + uuid + Ext(name)
  }

  /**
   * The stored name is the original name with "_" and the UUID inserted
   * before the extension: cutting them out gives back the original name.
   */
  lemma StoredNameCutsBack(name: string, uuid: string)
    ensures var stored, cut := StoredName(name, uuid), |Base(name)|;
      |stored| == |name| + 1 + |uuid| &&
      stored[cut..cut + 1 + |uuid|] == "_" + uuid &&
      stored[..cut] + stored[cut + 1 + |uuid|..] == name
  {
    var b, e := Base(name), Ext(name);
    var stored := StoredName(name, uuid);
    assert stored[..|b|] == b;
    assert stored[|b|..|b| + 1 + |uuid|] == "_" + uuid;
    assert stored[|b| + 1 + |uuid|..] == e;
  }

  /** The stored name keeps the original extension, so the renamed file is of the same type. */
  lemma StoredNameKeepsExt(name: string, uuid: string)
    requires IsUuidText(uuid)
    ensures Ext(StoredName(name, uuid)) == Ext(name)
  {
    var e := Ext(name);
    if e == "" {
      assert Base(name) == name;
      assert StoredName(name, uuid) == name + ("_" + uuid);
      ExtOfPlainSuffix(name, "_" + uuid);
    } else {
      ExtOfDottedSuffix(Base(name) + "_" + uuid, e);
    }
  }

  /**
   * Distinct UUIDs give distinct stored names, whatever the original names:
   * the stored name determines both the original name and the UUID.
   */
  lemma StoredNameInjective(name1: string, uuid1: string, name2: string, uuid2: string)
    requires IsUuidText(uuid1) && IsUuidText(uuid2)
    requires StoredName(name1, uuid1) == StoredName(name2, uuid2)
    ensures name1 == name2 && uuid1 == uuid2
  {
    var s := StoredName(name1, uuid1);
    StoredNameKeepsExt(name1, uuid1);
    StoredNameKeepsExt(name2, uuid2);
    var e := Ext(name1);
    var t1 := Base(name1) + "_" + uuid1;
    var t2 := Base(name2) + "_" + uuid2;
    assert t1 == s[..|s| - |e|] == t2;
    assert uuid1 == t1[|t1| - 36..] == t2[|t2| - 36..] == uuid2;
    assert Base(name1) == t1[..|t1| - 37] == t2[..|t2| - 37] == Base(name2);
  }

  /** `filepath.Join(dir, name)` for a plain file name (path cleaning is not modelled). */
  function Join(dir: string, name: string): string
  {
    if dir == "" then name else dir + "/" + name
  }

  /** The joined path ends in the name, after the directory and a '/' when there is a directory. */
  lemma JoinParts(dir: string, name: string)
    ensures var path := Join(dir, name);
      |path| >= |name| && path[|path| - |name|..] == name &&
      (dir == "" ==> path == name) &&
      (dir != "" ==> |path| == |dir| + 1 + |name| && path[..|dir| + 1] == dir + "/")
  {
  }

  /** Joined onto the same directory, different names give different paths. */
  lemma JoinInjective(dir: string, a: string, b: string)
    requires Join(dir, a) == Join(dir, b)
    ensures a == b
  {
    if dir != "" {
      assert a == Join(dir, a)[|dir| + 1..];
      assert b == Join(dir, b)[|dir| + 1..];
    }
  }

  /** Files saved under different UUIDs land on different paths of the same directory. */
  lemma StoredPathsDiffer(dir: string, name1: string, uuid1: string, name2: string, uuid2: string)
    requires IsUuidText(uuid1) && IsUuidText(uuid2) && uuid1 != uuid2
    ensures Join(dir, StoredName(name1, uuid1)) != Join(dir, StoredName(name2, uuid2))
  {
    if Join(dir, StoredName(name1, uuid1)) == Join(dir, StoredName(name2, uuid2)) {
      JoinInjective(dir, StoredName(name1, uuid1), StoredName(name2, uuid2));
      StoredNameInjective(name1, uuid1, name2, uuid2);
    }
  }

  /** ASCII case folding of `strings.ToLower`. */
  function LowerChar(c: char): char
  {
    if 'A' <= c <= 'Z' then (c as int + 32) as char else c
  }

  /**
   * `strings.ToLower` on ASCII: no capital letter remains, each capital
   * becomes its small letter and every other character is kept.
   */
  function ToLower(s: string): (t: string)
    ensures |t| == |s|
    ensures forall k :: 0 <= k < |s| ==>
      !('A' <= t[k] <= 'Z') && (t[k] == s[k] || ('A' <= s[k] <= 'Z' && t[k] as int == s[k] as int + 32))
  {
    seq(|s|, k requires 0 <= k < |s| => LowerChar(s[k]))
  }

  /** `unicode.IsSpace`, the test `strings.TrimSpace` trims by. */
  predicate IsSpace(c: char)
  {
    c == ' ' || c == '\t' || c == '\n' || c == '\U{0B}' || c == '\U{0C}' || c == '\r'
    || c == '\U{85}' || c == '\U{A0}' || c == '\U{1680}' || '\U{2000}' <= c <= '\U{200A}'
    || c == '\U{2028}' || c == '\U{2029}' || c == '\U{202F}' || c == '\U{205F}' || c == '\U{3000}'
  }

  predicate AllSpace(s: string)
  {
    forall k :: 0 <= k < |s| ==> IsSpace(s[k])
  }

  function TrimLeading(s: string): string
  {
    if s != "" && IsSpace(s[0]) then TrimLeading(s[1..]) else s
  }

  function TrimTrailing(s: string): string
  {
    if s != "" && IsSpace(s[|s| - 1]) then TrimTrailing(s[..|s| - 1]) else s
  }

  /**
   * `strings.TrimSpace`: drops leading and trailing white space, so the
   * result neither starts nor ends with white space.
   */
  function TrimSpace(s: string): (t: string)
    ensures |t| <= |s|
    ensures t == "" || (!IsSpace(t[0]) && !IsSpace(t[|t| - 1]))
  {
    var l := TrimLeading(s);
    TrimLeadingShape(s);
    TrimTrailingShape(l);
    var t := TrimTrailing(l);
    assert t == "" || t[0] == l[0];
    t
  }

  /** TrimLeading removes a run of white space from the front, and no more. */
  lemma {:induction false} TrimLeadingShape(s: string)
    ensures var t := TrimLeading(s);
      |t| <= |s| && t == s[|s| - |t|..] && AllSpace(s[..|s| - |t|]) && (t == "" || !IsSpace(t[0]))
  {
    if s != "" && IsSpace(s[0]) {
      TrimLeadingShape(s[1..]);
      var t := TrimLeading(s[1..]);
      assert s[..|s| - |t|] == [s[0]] + s[1..][..|s| - 1 - |t|];
    }
  }

  /** TrimTrailing removes a run of white space from the back, and no more. */
  lemma {:induction false} TrimTrailingShape(s: string)
    ensures var t := TrimTrailing(s);
      |t| <= |s| && t == s[..|t|] && AllSpace(s[|t|..]) && (t == "" || !IsSpace(t[|t| - 1]))
  {
    if s != "" && IsSpace(s[|s| - 1]) {
      TrimTrailingShape(s[..|s| - 1]);
      var t := TrimTrailing(s[..|s| - 1]);
      assert s[|t|..] == s[..|s| - 1][|t|..] + [s[|s| - 1]];
    }
  }

  /** TrimSpace cuts `s` into leading white space, the result, and trailing white space. */
  lemma TrimSpaceShape(s: string)
    ensures var t := TrimSpace(s);
      exists i, j :: 0 <= i <= j <= |s| && t == s[i..j] && AllSpace(s[..i]) && AllSpace(s[j..])
  {
    var l := TrimLeading(s);
    TrimLeadingShape(s);
    TrimTrailingShape(l);
    var t := TrimTrailing(l);
    var i := |s| - |l|;
    var j := i + |t|;
    assert t == s[i..j];
    assert s[j..] == l[|t|..];
  }

  /** An allow-list entry trims to "" exactly when it is all white space. */
  lemma TrimSpaceEmpty(s: string)
    ensures TrimSpace(s) == "" <==> AllSpace(s)
  {
    var l := TrimLeading(s);
    TrimLeadingShape(s);
    TrimTrailingShape(l);
    if TrimSpace(s) == "" {
      assert AllSpace(l[0..]);
      assert s == s[..|s| - |l|] + l;
    }
  }

  /** `strings.Split(s, ",")`: the pieces between commas; "" splits into [""]. */
  function Split(s: string): (parts: seq<string>)
    ensures |parts| >= 1
    ensures forall k :: 0 <= k < |parts| ==> ',' !in parts[k]
  {
    if s == "" then [""]
    else
      var rest := Split(s[1..]);
      if s[0] == ',' then [""] + rest else [[s[0]] + rest[0]] + rest[1..]
  }

  /** `strings.Join(parts, ",")`. */
  function JoinCommas(parts: seq<string>): string
    requires |parts| >= 1
  {
    if |parts| == 1 then parts[0] else parts[0] + "," + JoinCommas(parts[1..])
  }

  /** Joining the pieces of a split gives back the text. */
  lemma {:induction false} SplitJoin(s: string)
    ensures JoinCommas(Split(s)) == s
  {
    if s != "" {
      SplitJoin(s[1..]);
      var rest := Split(s[1..]);
      if s[0] != ',' {
        var parts := Split(s);
        if |rest| > 1 {
          assert parts[1..] == rest[1..];
        }
      }
    }
  }

  /** Splitting a comma-free `p` followed by `rest` glues `p` onto the first piece of `rest`. */
  lemma {:induction false} SplitAfterPlain(p: string, rest: string)
    requires ',' !in p
    ensures Split(p + rest) == [p + Split(rest)[0]] + Split(rest)[1..]
  {
    if p != "" {
      SplitAfterPlain(p[1..], rest);
      assert (p + rest)[1..] == p[1..] + rest;
      assert [p[0]] + (p[1..] + Split(rest)[0]) == p + Split(rest)[0];
    } else {
      var r := Split(rest);
      assert p + rest == rest && p + r[0] == r[0];
      assert r == [r[0]] + r[1..];
    }
  }

  /** Splitting joined comma-free pieces gives back the pieces. */
  lemma {:induction false} JoinSplit(parts: seq<string>)
    requires |parts| >= 1 && forall k :: 0 <= k < |parts| ==> ',' !in parts[k]
    ensures Split(JoinCommas(parts)) == parts
  {
    if |parts| == 1 {
      SplitAfterPlain(parts[0], "");
      assert parts[0] + "" == parts[0];
    } else {
      var tail := JoinCommas(parts[1..]);
      JoinSplit(parts[1..]);
      SplitAfterPlain(parts[0], "," + tail);
      assert ("," + tail)[0] == ',' && ("," + tail)[1..] == tail;
      assert Split("," + tail) == [""] + parts[1..];
      assert JoinCommas(parts) == parts[0] + ("," + tail);
      assert parts[0] + "" == parts[0];
      assert parts == [parts[0]] + parts[1..];
    }
  }
}
