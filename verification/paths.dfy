/** `String.split("/")` as the two path walks use it (Ext2File.java,
    Directory.java): the pieces between slashes, with trailing empty pieces
    removed, and the whole string when it holds no slash at all. */
module Paths {

  /** The pieces of s between slashes, empty pieces included: one more
      piece than s has slashes. */
  function Fields(s: string): (r: seq<string>)
    ensures |r| >= 1
    ensures forall i :: 0 <= i < |r| ==> '/' !in r[i]
    decreases |s|
  {
    if |s| == 0 then [""]
    else
      var rest := Fields(s[1..]);
      if s[0] == '/' then [""] + rest
      else [[s[0]] + rest[0]] + rest[1..]
  }

  /** The pieces put back together with a slash between neighbours. */
  function Join(parts: seq<string>): string
    requires |parts| >= 1
    decreases |parts|
  {
    if |parts| == 1 then parts[0] else parts[0] + "/" + Join(parts[1..])
  }

  /** Cutting at the slashes and gluing back gives the string again. */
  lemma {:induction false} JoinFields(s: string)
    ensures Join(Fields(s)) == s
    decreases |s|
  {
    if |s| > 0 {
      var rest := Fields(s[1..]);
      JoinFields(s[1..]);
      if s[0] == '/' {
        assert Fields(s) == [""] + rest;
        assert ([""] + rest)[1..] == rest;
        assert s == "/" + s[1..];
      } else {
        var parts := [[s[0]] + rest[0]] + rest[1..];
        assert Fields(s) == parts;
        if |rest| == 1 {
          assert s == [s[0]] + s[1..];
        } else {
          assert parts[1..] == rest[1..];
          assert s == [s[0]] + (rest[0] + "/" + Join(rest[1..]));
        }
      }
    }
  }

  /** A slash-free piece in front of a slash becomes the first field. */
  lemma {:induction false} FieldsOfPrefix(a: string, t: string)
    requires '/' !in a
    ensures Fields(a + "/" + t) == [a] + Fields(t)
    decreases |a|
  {
    if |a| == 0 {
      assert a + "/" + t == "/" + t;
      assert ("/" + t)[1..] == t;
    } else {
      var s := a + "/" + t;
      assert s[0] == a[0] && s[1..] == a[1..] + "/" + t;
      FieldsOfPrefix(a[1..], t);
      assert [a[0]] + a[1..] == a;
    }
  }

  /** Gluing slash-free pieces and cutting again gives the pieces back. */
  lemma {:induction false} FieldsJoin(parts: seq<string>)
    requires |parts| >= 1
    requires forall i :: 0 <= i < |parts| ==> '/' !in parts[i]
    ensures Fields(Join(parts)) == parts
    decreases |parts|
  {
    if |parts| == 1 {
      FieldsNoSlash(parts[0]);
    } else {
      FieldsJoin(parts[1..]);
      FieldsOfPrefix(parts[0], Join(parts[1..]));
      assert [parts[0]] + parts[1..] == parts;
    }
  }

  /** A string without a slash is a single field. */
  lemma {:induction false} FieldsNoSlash(s: string)
    requires '/' !in s
    ensures Fields(s) == [s]
    decreases |s|
  {
    if |s| > 0 {
      assert '/' !in s[1..] by {
        forall j | 0 <= j < |s[1..]|
          ensures s[1..][j] != '/'
        {
          assert s[1..][j] == s[j + 1];
        }
      }
      FieldsNoSlash(s[1..]);
      assert [s[0]] + s[1..] == s;
    }
  }

  /** The longest prefix of xs that does not end in an empty string: what
      is left once every trailing empty piece is dropped. */
  function DropTrailingEmpty(xs: seq<string>): (r: seq<string>)
    ensures |r| <= |xs| && r == xs[..|r|]
    ensures forall i :: |r| <= i < |xs| ==> xs[i] == ""
    ensures r == [] || r[|r| - 1] != ""
    decreases |xs|
  {
    if xs == [] then []
    else if xs[|xs| - 1] == "" then DropTrailingEmpty(xs[..|xs| - 1])
    else xs
  }

  /** `path.split("/")`. */
  function Split(s: string): (r: seq<string>)
    ensures forall i :: 0 <= i < |r| ==> '/' !in r[i]
  {
    if '/' !in s then [s] else DropTrailingEmpty(Fields(s))
  }

  /** What split promises: a slash-free string is its only piece; otherwise
      the pieces are the fields of s up to the last non-empty one, and every
      field after them is empty. */
  lemma SplitMeaning(s: string)
    ensures '/' !in s ==> Split(s) == [s]
    ensures '/' in s ==> Split(s) == Fields(s)[..|Split(s)|]
    ensures '/' in s ==> forall i :: |Split(s)| <= i < |Fields(s)| ==> Fields(s)[i] == ""
    ensures '/' in s ==> Split(s) == [] || Split(s)[|Split(s)| - 1] != ""
  {
  }

  /** A path of non-empty slash-free names joined by slashes and led by a
      slash splits into an empty first piece and then the names. */
  lemma SplitAbsolute(names: seq<string>)
    requires |names| >= 1
    requires forall i :: 0 <= i < |names| ==> '/' !in names[i] && names[i] != ""
    ensures Split(Join([""] + names)) == [""] + names
  {
    var parts := [""] + names;
    LastOfCons("", names);
    forall i | 0 <= i < |parts|
      ensures '/' !in parts[i]
    {
      if i > 0 {
        assert parts[i] == names[i - 1];
      }
    }
    FieldsJoin(parts);
    var s := Join(parts);
    assert s == "" + "/" + Join(parts[1..]);
    assert s[0] == '/';
  }

  lemma LastOfCons<T>(x: T, xs: seq<T>)
    requires |xs| >= 1
    ensures ([x] + xs)[|xs|] == xs[|xs| - 1]
  {
  }
}
