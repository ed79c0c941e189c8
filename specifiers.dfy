/** Turning the relative path from a chunk's directory to one of its stylesheets into a
    module specifier: every run of `\` and `/` becomes a single `/`, and `./` is put in
    front unless the path already starts with `.` (src/index.ts, generateBundle).
    Computing the relative path itself (Node's `path.relative`/`path.dirname`) is not
    part of this model: the raw relative path is the input. */
module Specifiers {

  /** The characters matched by the class `[\\/]`. */
  predicate IsSeparator(c: char) {
    c == '\\' || c == '/'
  }

  /** No two `/` side by side. */
  predicate NoDoubleSlash(s: string) {
    forall i :: 0 <= i < |s| - 1 ==> !(s[i] == '/' && s[i + 1] == '/')
  }

  /** The characters of `s` that are not separators, in order. */
  function NonSeparators(s: string): (r: string)
    ensures |r| <= |s|
  {
    if s == [] then []
    else if IsSeparator(s[0]) then NonSeparators(s[1..])
    else [s[0]] + NonSeparators(s[1..])
  }

  /** `s.replaceAll(/[\\/]+/g, '/')`: each maximal run of separators becomes one `/`. */
  function CollapseSeparators(s: string): (r: string)
    ensures |r| == 0 <==> |s| == 0
    ensures r != [] ==> r[0] == (if IsSeparator(s[0]) then '/' else s[0])
  {
    if s == [] then []
    else if IsSeparator(s[0]) then
      var rest := CollapseSeparators(s[1..]);
      if rest != [] && rest[0] == '/' then rest else "/" + rest
    else
      [s[0]] + CollapseSeparators(s[1..])
  }

  /** What collapsing guarantees: no `\` is left, no two `/` stand side by side, and the
      other characters are kept, in order. */
  lemma {:induction false} CollapseShape(s: string)
    ensures '\\' !in CollapseSeparators(s)
    ensures NoDoubleSlash(CollapseSeparators(s))
    ensures NonSeparators(CollapseSeparators(s)) == NonSeparators(s)
  {
    if s != [] {
      var rest := CollapseSeparators(s[1..]);
      CollapseShape(s[1..]);
      var r := CollapseSeparators(s);
      if IsSeparator(s[0]) {
        if !(rest != [] && rest[0] == '/') {
          assert r == "/" + rest && r[1..] == rest;
          assert NoDoubleSlash(r) by {
            forall i | 0 <= i < |r| - 1 ensures !(r[i] == '/' && r[i + 1] == '/') {
              if i > 0 { assert r[i] == rest[i - 1] && r[i + 1] == rest[i]; }
            }
          }
        }
      } else {
        assert r == [s[0]] + rest && r[1..] == rest;
        assert NoDoubleSlash(r) by {
          forall i | 0 <= i < |r| - 1 ensures !(r[i] == '/' && r[i + 1] == '/') {
            if i > 0 { assert r[i] == rest[i - 1] && r[i + 1] == rest[i]; }
          }
        }
      }
    }
  }

  /** A string that is already collapsed is left exactly as it is. */
  lemma {:induction false} CollapseFixedPoint(s: string)
    requires '\\' !in s && NoDoubleSlash(s)
    ensures CollapseSeparators(s) == s
  {
    if s != [] {
      var t := s[1..];
      assert '\\' !in t;
      assert NoDoubleSlash(t) by {
        forall i | 0 <= i < |t| - 1 ensures !(t[i] == '/' && t[i + 1] == '/') {
          assert t[i] == s[i + 1] && t[i + 1] == s[i + 2];
        }
      }
      CollapseFixedPoint(t);
      if IsSeparator(s[0]) {
        assert s[0] == '/';
        assert t != [] ==> t[0] != '/';
        assert s == "/" + t;
      } else {
        assert s == [s[0]] + t;
      }
    }
  }

  /** Collapsing twice is the same as collapsing once. */
  lemma CollapseIdempotent(s: string)
    ensures CollapseSeparators(CollapseSeparators(s)) == CollapseSeparators(s)
  {
    CollapseShape(s);
    CollapseFixedPoint(CollapseSeparators(s));
  }

  /** A non-empty run made only of separators becomes exactly one `/`. */
  lemma {:induction false} CollapseRun(s: string)
    requires |s| > 0
    requires forall i :: 0 <= i < |s| ==> IsSeparator(s[i])
    ensures CollapseSeparators(s) == "/"
  {
    if |s| > 1 {
      CollapseRun(s[1..]);
    }
  }

  /** One step of the collapse: a separator in front joins the run the rest starts with,
      any other character is kept. */
  lemma CollapseCons(c: char, t: string)
    ensures var rest := CollapseSeparators(t);
      CollapseSeparators([c] + t)
        == if !IsSeparator(c) then [c] + rest
           else if rest != [] && rest[0] == '/' then rest
           else "/" + rest
  {
    assert ([c] + t)[0] == c && ([c] + t)[1..] == t;
  }

  /** The associativity step behind each case of CollapseConcat. */
  lemma AppendAssociates(x: string, y: string, z: string)
    ensures x + (y + z) == (x + y) + z
  {
  }

  /** A kept character in front of a concatenation whose pieces collapse separately. */
  lemma ConsKeptConcat(c: char, tail: string, b: string)
    requires !IsSeparator(c)
    requires CollapseSeparators(tail + b) == CollapseSeparators(tail) + CollapseSeparators(b)
    ensures CollapseSeparators([c] + (tail + b)) == CollapseSeparators([c] + tail) + CollapseSeparators(b)
  {
    CollapseCons(c, tail);
    CollapseCons(c, tail + b);
    AppendAssociates([c], CollapseSeparators(tail), CollapseSeparators(b));
  }

  /** A lone separator in front of a piece that does not start with one. */
  lemma SeparatorBeforeName(c: char, b: string)
    requires IsSeparator(c)
    requires b != [] && !IsSeparator(b[0])
    ensures CollapseSeparators([c] + b) == "/" + CollapseSeparators(b)
  {
    CollapseCons(c, b);
  }

  /** A separator in front of a non-empty piece joins whatever that piece starts with. */
  lemma SeparatorConsConcat(c: char, tail: string, b: string)
    requires IsSeparator(c) && tail != []
    requires CollapseSeparators(tail + b) == CollapseSeparators(tail) + CollapseSeparators(b)
    ensures CollapseSeparators([c] + (tail + b)) == CollapseSeparators([c] + tail) + CollapseSeparators(b)
  {
    CollapseCons(c, tail);
    CollapseCons(c, tail + b);
    var ct, cb := CollapseSeparators(tail), CollapseSeparators(b);
    assert ct != [];
    assert (ct + cb)[0] == ct[0];
    if ct[0] != '/' {
      AppendAssociates("/", ct, cb);
    }
  }

  /** One character in front of a concatenation whose pieces collapse separately. */
  lemma CollapseConsConcat(c: char, tail: string, b: string)
    requires b != []
    requires tail == [] ==> !IsSeparator(c) || !IsSeparator(b[0])
    requires CollapseSeparators(tail + b) == CollapseSeparators(tail) + CollapseSeparators(b)
    ensures CollapseSeparators([c] + (tail + b)) == CollapseSeparators([c] + tail) + CollapseSeparators(b)
  {
    if !IsSeparator(c) {
      ConsKeptConcat(c, tail, b);
    } else if tail == [] {
      assert tail + b == b && [c] + tail == [c];
      SeparatorBeforeName(c, b);
      CollapseRun([c]);
    } else {
      SeparatorConsConcat(c, tail, b);
    }
  }

  /** Collapsing works piece by piece as long as the cut does not split a run of
      separators. */
  lemma {:induction false} CollapseConcat(a: string, b: string)
    requires a == [] || b == [] || !IsSeparator(a[|a| - 1]) || !IsSeparator(b[0])
    ensures CollapseSeparators(a + b) == CollapseSeparators(a) + CollapseSeparators(b)
  {
    if a == [] {
      assert a + b == b;
    } else if b == [] {
      assert a + b == a;
    } else {
      var c, tail := a[0], a[1..];
      assert a == [c] + tail && a + b == [c] + (tail + b);
      assert tail != [] ==> tail[|tail| - 1] == a[|a| - 1];
      CollapseConcat(tail, b);
      CollapseConsConcat(c, tail, b);
    }
  }

  /** The specifier injected for one stylesheet, given the raw relative path from the
      chunk's directory to it: the collapsed path, behind `./` unless it already starts
      with `.`. */
  function Specifier(relativePath: string): (spec: string)
    ensures |spec| > 0 && spec[0] == '.'
    ensures '\\' !in spec
    ensures |relativePath| > 0 && relativePath[0] == '.' ==> spec == CollapseSeparators(relativePath)
    ensures !(|relativePath| > 0 && relativePath[0] == '.') ==> spec == "./" + CollapseSeparators(relativePath)
  {
    CollapseShape(relativePath);
    var collapsed := CollapseSeparators(relativePath);
    if |collapsed| > 0 && collapsed[0] == '.' then collapsed else "./" + collapsed
  }

  /** A specifier has no doubled slash unless the raw path began with a separator. */
  lemma SpecifierNoDoubleSlash(relativePath: string)
    requires relativePath == [] || !IsSeparator(relativePath[0])
    ensures NoDoubleSlash(Specifier(relativePath))
  {
    CollapseShape(relativePath);
    var collapsed := CollapseSeparators(relativePath);
    if !(|relativePath| > 0 && relativePath[0] == '.') {
      var spec := "./" + collapsed;
      forall i | 0 <= i < |spec| - 1 ensures !(spec[i] == '/' && spec[i + 1] == '/') {
        if i > 1 { assert spec[i] == collapsed[i - 2] && spec[i + 1] == collapsed[i - 1]; }
      }
    }
  }

  /** Putting `./` in front adds just the `.` to the characters that are not separators. */
  lemma NonSeparatorsBehindDotSlash(s: string)
    ensures NonSeparators("./" + s) == "." + NonSeparators(s)
  {
    var slashed := "/" + s;
    assert slashed[1..] == s;
    assert "./" + s == "." + slashed;
    assert ("." + slashed)[1..] == slashed;
  }

  /** A specifier keeps every character of the raw path other than the separators, in
      order, after a leading `.` when `./` was put in front. */
  lemma SpecifierKeepsNames(relativePath: string)
    ensures NonSeparators(Specifier(relativePath)) == if |relativePath| > 0 && relativePath[0] == '.'
                                                      then NonSeparators(relativePath)
                                                      else "." + NonSeparators(relativePath)
  {
    CollapseShape(relativePath);
    NonSeparatorsBehindDotSlash(CollapseSeparators(relativePath));
  }

  /** A specifier of the kind this function produces is produced again unchanged,
      provided it has no leading separator problem: normalising is idempotent. */
  lemma SpecifierIdempotent(relativePath: string)
    requires relativePath == [] || !IsSeparator(relativePath[0])
    ensures Specifier(Specifier(relativePath)) == Specifier(relativePath)
  {
    SpecifierNoDoubleSlash(relativePath);
    CollapseFixedPoint(Specifier(relativePath));
  }

  /** A raw path that begins with a separator keeps a doubled slash after the `./`
      prefix, so "no two consecutive slashes" holds only for paths that do not. */
  lemma LeadingSeparatorKeepsDoubleSlash(rel: string)
    requires |rel| > 0 && IsSeparator(rel[0])
    ensures !NoDoubleSlash(Specifier(rel))
  {
    var c := CollapseSeparators(rel);
    assert c[0] == '/';
    assert Specifier(rel) == "./" + c;
    assert Specifier(rel)[1] == '/' && Specifier(rel)[2] == '/';
  }

  /** For example, `\x` becomes `.//x`. */
  lemma LeadingBackslashExample(rel: string)
    requires rel == "\\x"
    ensures Specifier(rel) == ".//x"
  {
    var x := rel[1..];
    assert rel == [rel[0]] + x;
    CollapseFixedPoint(x);
    assert CollapseSeparators(rel) == "/" + x;
  }

  /** A relative path that is already in POSIX form comes back unchanged when it starts
      with `.` (`../style.css`), and behind `./` otherwise (`style.css`). */
  lemma SpecifierOfPosixPath(relativePath: string)
    requires '\\' !in relativePath && NoDoubleSlash(relativePath)
    ensures Specifier(relativePath) == if |relativePath| > 0 && relativePath[0] == '.'
                                       then relativePath
                                       else "./" + relativePath
  {
    CollapseFixedPoint(relativePath);
  }

  /** A run of separators between two collapsed pieces becomes a single `/`. */
  lemma CollapseJoin(left: string, seps: string, right: string)
    requires '\\' !in left && NoDoubleSlash(left) && (left == [] || !IsSeparator(left[|left| - 1]))
    requires |seps| > 0 && forall i :: 0 <= i < |seps| ==> IsSeparator(seps[i])
    requires '\\' !in right && NoDoubleSlash(right) && (right == [] || !IsSeparator(right[0]))
    ensures CollapseSeparators(left + seps + right) == left + "/" + right
  {
    CollapseRun(seps);
    CollapseFixedPoint(right);
    CollapseConcat(seps, right);
    CollapseFixedPoint(left);
    assert (seps + right)[0] == seps[0];
    CollapseConcat(left, seps + right);
    AppendAssociates(left, seps, right);
    AppendAssociates(left, "/", right);
  }

  /** A Windows-style path that climbs out of the chunk's directory, `..` followed by any
      run of separators and a name, becomes the POSIX specifier `../name`. */
  lemma SpecifierOfWindowsPath(up: string, seps: string, name: string)
    requires up == ".."
    requires |seps| > 0 && forall i :: 0 <= i < |seps| ==> IsSeparator(seps[i])
    requires forall i :: 0 <= i < |name| ==> !IsSeparator(name[i])
    ensures Specifier(up + seps + name) == "../" + name
  {
    assert '\\' !in name;
    assert NoDoubleSlash(name);
    CollapseJoin(up, seps, name);
    assert (up + seps + name)[0] == '.';
    assert up + "/" + name == "../" + name;
  }
}
