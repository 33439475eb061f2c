/** The single key of the JSON document, which names the plist root: `main` writes it as
    `"<tag> version=<version>"` (app.py:183-185) and `dict_to_xml` takes it apart again
    with two `str.split` calls (app.py:136-139). */
module RootKey {
  import opened PlistTypes

  /** Python's `s.split(sep)` for a one-character separator: the fields between the
      separators, empty ones included, so there is always at least one. */
  function Split(s: string, sep: char): (r: seq<string>)
    ensures |r| >= 1
  {
    if s == [] then [""]
    else
      var rest := Split(s[1..], sep);
      if s[0] == sep then [""] + rest else [[s[0]] + rest[0]] + rest[1..]
  }

  /** Python's `sep.join(fields)`. */
  function Join(fields: seq<string>, sep: char): string
    requires |fields| >= 1
  {
    if |fields| == 1 then fields[0] else fields[0] + [sep] + Join(fields[1..], sep)
  }

  /** Joining the fields with the separator gives the string back, and no field holds
      the separator. */
  lemma {:induction false} SplitJoin(s: string, sep: char)
    ensures Join(Split(s, sep), sep) == s
    ensures forall i :: 0 <= i < |Split(s, sep)| ==> sep !in Split(s, sep)[i]
    decreases |s|
  {
    if s != [] {
      var rest := Split(s[1..], sep);
      SplitJoin(s[1..], sep);
      if s[0] == sep {
        assert Split(s, sep)[1..] == rest;
      } else {
        var r := Split(s, sep);
        assert r[0] == [s[0]] + rest[0];
        if |rest| == 1 {
          assert Join(r, sep) == [s[0]] + rest[0];
        } else {
          assert r[1..] == rest[1..];
          assert Join(r, sep) == [s[0]] + (rest[0] + [sep] + Join(rest[1..], sep));
        }
        assert s == [s[0]] + s[1..];
        forall i | 0 <= i < |r| ensures sep !in r[i] {
          if i > 0 {
            assert r[i] == rest[i];
          }
        }
      }
    }
  }

  /** A string without the separator is one field. */
  lemma {:induction false} SplitNoSep(s: string, sep: char)
    requires sep !in s
    ensures Split(s, sep) == [s]
    decreases |s|
  {
    if s != [] {
      SplitNoSep(s[1..], sep);
      assert s == [s[0]] + s[1..];
    }
  }

  /** The first separator ends the first field. */
  lemma {:induction false} SplitAtFirst(a: string, b: string, sep: char)
    requires sep !in a
    ensures Split(a + [sep] + b, sep) == [a] + Split(b, sep)
    decreases |a|
  {
    var s := a + [sep] + b;
    if a == [] {
      assert s[1..] == b;
    } else {
      assert s[1..] == a[1..] + [sep] + b;
      SplitAtFirst(a[1..], b, sep);
      assert [a[0]] + a[1..] == a;
    }
  }

  /** Splitting fields that hold no separator after joining them gives the fields back. */
  lemma {:induction false} JoinSplit(fields: seq<string>, sep: char)
    requires |fields| >= 1 && forall i :: 0 <= i < |fields| ==> sep !in fields[i]
    ensures Split(Join(fields, sep), sep) == fields
    decreases |fields|
  {
    if |fields| == 1 {
      SplitNoSep(fields[0], sep);
    } else {
      JoinSplit(fields[1..], sep);
      SplitAtFirst(fields[0], Join(fields[1..], sep), sep);
    }
  }

  /** The first field is the longest prefix without the separator: it is all of `s`
      when the separator does not occur, and stops at the first one otherwise. */
  lemma {:induction false} SplitFirst(s: string, sep: char)
    ensures |Split(s, sep)[0]| <= |s| && s[..|Split(s, sep)[0]|] == Split(s, sep)[0]
    ensures sep !in Split(s, sep)[0]
    ensures sep !in s ==> Split(s, sep)[0] == s
    ensures sep in s ==> |Split(s, sep)[0]| < |s| && s[|Split(s, sep)[0]|] == sep
    decreases |s|
  {
    if s != [] {
      SplitFirst(s[1..], sep);
      if sep !in s {
        SplitNoSep(s, sep);
      }
    }
  }

  /** There is a second field exactly when the separator occurs. */
  lemma {:induction false} SplitHasSecond(s: string, sep: char)
    ensures |Split(s, sep)| >= 2 <==> sep in s
    decreases |s|
  {
    if s != [] {
      SplitHasSecond(s[1..], sep);
    }
  }

  /** The key `main` writes for a root element: `f"{root_tag} version={version_attribute}"`
      (app.py:185). */
  function Compose(tag: string, version: string): string
  {
    tag + " version=" + version
  }

  /** What `dict_to_xml` takes from a key (app.py:136-139): the first space-separated
      word is the tag and the text after the first `=` of the second word, up to the
      next `=`, is the version. None where Python raises IndexError: a key without a
      space, or whose second word has no `=`. */
  function Decode(key: string): (r: Option<(string, string)>)
  {
    var words := Split(key, ' ');
    if |words| < 2 then None
    else
      var parts := Split(words[1], '=');
      if |parts| < 2 then None else Some((words[0], parts[1]))
  }

  /** A key without a space raises: it has no second word. */
  lemma DecodeNeedsSpace(key: string)
    requires ' ' !in key
    ensures Decode(key).None?
  {
    SplitHasSecond(key, ' ');
  }

  /** A decoded tag and version hold no space, and the version no `=`. */
  lemma DecodeClean(key: string)
    requires Decode(key).Some?
    ensures ' ' !in Decode(key).value.0
    ensures ' ' !in Decode(key).value.1 && '=' !in Decode(key).value.1
  {
    var words := Split(key, ' ');
    SplitJoin(key, ' ');
    SplitJoin(words[1], '=');
    assert ' ' !in words[1];
  }

  /** The key written for a root decodes to that root's tag and version exactly when the
      tag holds no space and the version neither a space nor an `=`. */
  lemma DecodeCompose(tag: string, version: string)
    ensures Decode(Compose(tag, version)) == Some((tag, version)) <==>
              ' ' !in tag && ' ' !in version && '=' !in version
  {
    if ' ' !in tag && ' ' !in version && '=' !in version {
      DecodeComposeClean(tag, version);
    } else if Decode(Compose(tag, version)).Some? {
      DecodeClean(Compose(tag, version));
    }
  }

  lemma DecodeComposeClean(tag: string, version: string)
    requires ' ' !in tag && ' ' !in version && '=' !in version
    ensures Decode(Compose(tag, version)) == Some((tag, version))
  {
    var rest := "version=" + version;
    assert Compose(tag, version) == tag + [' '] + rest;
    SplitAtFirst(tag, rest, ' ');
    assert ' ' !in rest;
    SplitNoSep(rest, ' ');
    assert rest == "version" + ['='] + version;
    SplitAtFirst("version", version, '=');
    SplitNoSep(version, '=');
  }
}
