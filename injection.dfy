/** What generateBundle writes into one chunk (src/index.ts): the fragment made for each
    stylesheet, and the code that results from splicing the fragments in one after the
    other at a single anchor. */
module Injection {
  import opened Wrappers
  import opened Specifiers
  import opened Anchor

  /** The foreign code the per-chunk work calls: the native JavaScript parser (only the
      kinds and starts of the root's children are used) and Node's `path.relative` and
      `path.dirname`. */
  datatype Libraries = Libraries(
    parse: string -> seq<TopLevelNode>,
    relative: (string, string) -> string,
    dirname: string -> string)

  /** Only the exact option value `'APPEND_LINK'` selects the link-tag snippet; any other
      value, `'IMPORT'` included, selects module references. */
  predicate IsAppendLink(injectionType: string) {
    injectionType == "APPEND_LINK"
  }

  const LinkHead: string :=
    "(()=>{" + "if(typeof window==='undefined')return;const l=document.createElement('link');l.rel='stylesheet';l.type='text/css';l.href='"
  const LinkTail: string := "';document.head.appendChild(l);})();\n"

  /** `createStyleSheet(src)`: a self-invoking snippet that, in a browser, appends a
      `<link rel="stylesheet">` for `src` to the document head. */
  function StyleSheet(src: string): string {
    LinkHead + src + LinkTail
  }

  /** `import '<specifier>';` for ES-module output, `require('<specifier>');` otherwise. */
  function ModuleReference(specifier: string, format: string): string {
    if format == "es" then "import '" + specifier + "';" else "require('" + specifier + "');"
  }

  /** The fragment for one stylesheet `cssFileName` whose specifier is `specifier`. */
  function Fragment(injectionType: string, base: string, format: string, cssFileName: string,
                    specifier: string): string {
    if IsAppendLink(injectionType) then StyleSheet(base + cssFileName)
    else ModuleReference(specifier, format)
  }

  // ---- reading a fragment back -----------------------------------------------------

  /** The text between `head` and `tail` when `text` is `head + mid + tail`. */
  function Unwrap(text: string, head: string, tail: string): (mid: Option<string>)
    ensures mid.Some? ==> text == head + mid.value + tail
  {
    if |text| >= |head| + |tail| && text[..|head|] == head && text[|text| - |tail|..] == tail then
      var mid := text[|head|..|text| - |tail|];
      assert text == text[..|head|] + mid + text[|text| - |tail|..];
      Some(mid)
    else None
  }

  lemma UnwrapWrapped(head: string, mid: string, tail: string)
    ensures Unwrap(head + mid + tail, head, tail) == Some(mid)
  {
    var text := head + mid + tail;
    assert text[..|head|] == head;
    assert text[|text| - |tail|..] == tail;
    assert text[|head|..|text| - |tail|] == mid;
  }

  /** The `href` a link-tag snippet installs. */
  function LinkHref(fragment: string): Option<string> {
    Unwrap(fragment, LinkHead, LinkTail)
  }

  /** The module specifier an `import '…';` or `require('…');` fragment names. */
  function ReferencedSpecifier(fragment: string): Option<string> {
    match Unwrap(fragment, "import '", "';")
    case Some(p) => Some(p)
    case None => Unwrap(fragment, "require('", "');")
  }

  /** Every fragment can be read back: a link snippet points at `base + cssFileName` (the
      raw file name, not the relative specifier) whatever the output format; a module
      reference names the specifier, as an `import` exactly for ES-module output. */
  lemma FragmentReferences(injectionType: string, base: string, format: string, cssFileName: string,
                           specifier: string)
    ensures IsAppendLink(injectionType) ==>
              LinkHref(Fragment(injectionType, base, format, cssFileName, specifier)) == Some(base + cssFileName)
    ensures !IsAppendLink(injectionType) ==>
              ReferencedSpecifier(Fragment(injectionType, base, format, cssFileName, specifier)) == Some(specifier)
    ensures !IsAppendLink(injectionType) ==>
              (Fragment(injectionType, base, format, cssFileName, specifier)[0] == 'i' <==> format == "es")
  {
    var f := Fragment(injectionType, base, format, cssFileName, specifier);
    if IsAppendLink(injectionType) {
      UnwrapWrapped(LinkHead, base + cssFileName, LinkTail);
    } else if format == "es" {
      UnwrapWrapped("import '", specifier, "';");
    } else {
      assert f[0] == 'r';
      assert Unwrap(f, "import '", "';") == None;
      UnwrapWrapped("require('", specifier, "');");
    }
  }

  // ---- repeated splicing at one anchor ---------------------------------------------

  /** What inserting `fragments[0]`, then `fragments[1]`, … each at the same offset leaves
      at that offset: every new fragment lands in front of the earlier ones. */
  function Stacked(fragments: seq<string>): string {
    if fragments == [] then ""
    else fragments[|fragments| - 1] + Stacked(fragments[..|fragments| - 1])
  }

  function Concat(parts: seq<string>): string {
    if parts == [] then "" else parts[0] + Concat(parts[1..])
  }

  function Reversed<T>(s: seq<T>): (r: seq<T>)
    ensures |r| == |s|
  {
    if s == [] then [] else Reversed(s[1..]) + [s[0]]
  }

  function TotalLength(parts: seq<string>): nat {
    if parts == [] then 0 else |parts[0]| + TotalLength(parts[1..])
  }

  lemma {:induction false} ConcatAppend(a: seq<string>, b: seq<string>)
    ensures Concat(a + b) == Concat(a) + Concat(b)
  {
    if a != [] {
      assert (a + b)[1..] == a[1..] + b;
      ConcatAppend(a[1..], b);
    } else {
      assert a + b == b;
    }
  }

  lemma {:induction false} TotalLengthAppend(a: seq<string>, b: seq<string>)
    ensures TotalLength(a + b) == TotalLength(a) + TotalLength(b)
  {
    if a != [] {
      assert (a + b)[1..] == a[1..] + b;
      TotalLengthAppend(a[1..], b);
    } else {
      assert a + b == b;
    }
  }

  /** The fragments appear in the reverse of the order they were spliced in. */
  lemma {:induction false} StackedIsReversedConcat(fragments: seq<string>)
    ensures Stacked(fragments) == Concat(Reversed(fragments))
  {
    if fragments != [] {
      var n := |fragments|;
      var init := fragments[..n - 1];
      StackedIsReversedConcat(init);
      ReversedSnoc(init, fragments[n - 1]);
      assert fragments == init + [fragments[n - 1]];
      assert Reversed(fragments) == [fragments[n - 1]] + Reversed(init);
      ConcatAppend([fragments[n - 1]], Reversed(init));
    }
  }

  lemma {:induction false} ReversedSnoc<T>(s: seq<T>, x: T)
    ensures Reversed(s + [x]) == [x] + Reversed(s)
  {
    if s == [] {
      assert s + [x] == [x];
    } else {
      assert (s + [x])[1..] == s[1..] + [x];
      ReversedSnoc(s[1..], x);
    }
  }

  /** The stacked fragments are exactly as long as all fragments together. */
  lemma {:induction false} StackedLength(fragments: seq<string>)
    ensures |Stacked(fragments)| == TotalLength(fragments)
  {
    if fragments != [] {
      var n := |fragments|;
      var init := fragments[..n - 1];
      StackedLength(init);
      assert fragments == init + [fragments[n - 1]];
      TotalLengthAppend(init, [fragments[n - 1]]);
      assert TotalLength([fragments[n - 1]]) == |fragments[n - 1]| + TotalLength([]);
    }
  }

  /** The code after all fragments of one chunk are applied: prepended at offset 0 for
      link snippets, spliced in at `position` for module references. */
  function InjectedCode(injectionType: string, code: string, position: nat, fragments: seq<string>): string
    requires position <= |code|
  {
    if IsAppendLink(injectionType) then Stacked(fragments) + code
    else code[..position] + Stacked(fragments) + code[position..]
  }

  /** Splicing one more fragment into the code built so far gives the code for the
      longer list of fragments. */
  lemma SpliceStep(injectionType: string, code: string, position: nat, done: seq<string>, fragment: string)
    requires position <= |code|
    ensures var before := InjectedCode(injectionType, code, position, done);
      position <= |before| &&
      InjectedCode(injectionType, code, position, done + [fragment])
        == if IsAppendLink(injectionType) then fragment + before
           else before[..position] + fragment + before[position..]
  {
    var all := done + [fragment];
    assert all[..|all| - 1] == done;
    assert Stacked(all) == fragment + Stacked(done);
    var stack, head, rest := Stacked(done), code[..position], code[position..];
    if IsAppendLink(injectionType) {
      assert fragment + stack + code == fragment + (stack + code);
    } else {
      var before := head + stack + rest;
      assert before[..position] == head;
      assert before[position..] == stack + rest;
      assert head + (fragment + stack) + rest == head + fragment + (stack + rest);
    }
  }

  /** Module-reference mode: the code before the anchor and the code after it are kept
      unchanged, the fragments sit between them in reverse order, and the code grows by
      exactly the fragments' total length. */
  lemma ImportLayout(injectionType: string, code: string, position: nat, fragments: seq<string>)
    requires position <= |code|
    requires !IsAppendLink(injectionType)
    ensures var r := InjectedCode(injectionType, code, position, fragments);
      && |r| == |code| + TotalLength(fragments)
      && r[..position] == code[..position]
      && r[position..position + TotalLength(fragments)] == Concat(Reversed(fragments))
      && r[position + TotalLength(fragments)..] == code[position..]
  {
    StackedLength(fragments);
    StackedIsReversedConcat(fragments);
    var r := InjectedCode(injectionType, code, position, fragments);
    var t := TotalLength(fragments);
    assert r == code[..position] + Stacked(fragments) + code[position..];
    assert r[..position] == code[..position];
    assert r[position..position + t] == Stacked(fragments);
    assert r[position + t..] == code[position..];
  }

  /** Link-tag mode: the original code is kept whole at the end, preceded by the
      snippets in reverse order. */
  lemma AppendLinkLayout(injectionType: string, code: string, position: nat, fragments: seq<string>)
    requires position <= |code|
    requires IsAppendLink(injectionType)
    ensures var r := InjectedCode(injectionType, code, position, fragments);
      && |r| == |code| + TotalLength(fragments)
      && r == Concat(Reversed(fragments)) + code
      && r[TotalLength(fragments)..] == code
  {
    StackedLength(fragments);
    StackedIsReversedConcat(fragments);
  }

  // ---- one chunk -------------------------------------------------------------------

  /** The fragment for one stylesheet of the chunk `fileName`. */
  function CssFragment(injectionType: string, base: string, format: string, libraries: Libraries,
                       fileName: string, cssFileName: string): string {
    Fragment(injectionType, base, format, cssFileName,
             Specifier(libraries.relative(libraries.dirname(fileName), cssFileName)))
  }

  /** The fragments for the chunk's stylesheets, in the set's iteration order. */
  function ChunkFragments(injectionType: string, base: string, format: string, libraries: Libraries,
                          fileName: string, importedCss: seq<string>): (fragments: seq<string>)
    ensures |fragments| == |importedCss|
  {
    seq(|importedCss|, k requires 0 <= k < |importedCss| =>
      CssFragment(injectionType, base, format, libraries, fileName, importedCss[k]))
  }

  /** The new code of one chunk that has stylesheets: the anchor comes from the parse of
      the original code and is used for every splice. (Well-formed parser output puts
      the anchor inside the code, see InjectionPointSeparates.) */
  function RewrittenCode(injectionType: string, base: string, format: string, libraries: Libraries,
                         fileName: string, code: string, importedCss: seq<string>): string
    requires InjectionPoint(libraries.parse(code)) <= |code|
  {
    InjectedCode(injectionType, code, InjectionPoint(libraries.parse(code)),
                 ChunkFragments(injectionType, base, format, libraries, fileName, importedCss))
  }

  /** With no stylesheet the code comes out byte for byte as it went in. */
  lemma NoStylesheetsNoChange(injectionType: string, base: string, format: string, libraries: Libraries,
                              fileName: string, code: string)
    requires InjectionPoint(libraries.parse(code)) <= |code|
    ensures RewrittenCode(injectionType, base, format, libraries, fileName, code, []) == code
  {
    var p := InjectionPoint(libraries.parse(code));
    assert ChunkFragments(injectionType, base, format, libraries, fileName, []) == [];
    assert code[..p] + code[p..] == code;
  }

  /** Module-reference mode on a chunk: everything before the first statement that is
      neither an import nor an expression statement is kept in place, and the original
      code from there on follows the injected references. */
  lemma RewriteKeepsLeadingStatements(injectionType: string, base: string, format: string,
                                      libraries: Libraries, fileName: string, code: string,
                                      importedCss: seq<string>)
    requires WellFormed(libraries.parse(code), |code|)
    requires !IsAppendLink(injectionType)
    ensures var p := InjectionPoint(libraries.parse(code));
      var fragments := ChunkFragments(injectionType, base, format, libraries, fileName, importedCss);
      var r := RewrittenCode(injectionType, base, format, libraries, fileName, code, importedCss);
      && p <= |code|
      && (forall j :: 0 <= j < |libraries.parse(code)| && !Excluded(libraries.parse(code)[j])
                      ==> p <= libraries.parse(code)[j].start)
      && |r| == |code| + TotalLength(fragments)
      && r[..p] == code[..p]
      && r[p + TotalLength(fragments)..] == code[p..]
  {
    InjectionPointSeparates(libraries.parse(code), |code|);
    var p := InjectionPoint(libraries.parse(code));
    ImportLayout(injectionType, code, p,
                 ChunkFragments(injectionType, base, format, libraries, fileName, importedCss));
  }

  /** Two fragments `a` then `b` come out as `b` followed by `a`, at the anchor for
      module references and at the very start for link snippets. */
  lemma TwoFragmentsReversed(injectionType: string, code: string, position: nat, a: string, b: string)
    requires position <= |code|
    ensures InjectedCode(injectionType, code, position, [a, b])
            == if IsAppendLink(injectionType) then b + a + code
               else code[..position] + b + a + code[position..]
  {
    StackedPair(a, b);
    if IsAppendLink(injectionType) {
      assert (b + a) + code == b + a + code;
    } else {
      assert code[..position] + (b + a) + code[position..] == code[..position] + b + a + code[position..];
    }
  }

  lemma StackedPair(a: string, b: string)
    ensures Stacked([a, b]) == b + a
  {
    assert [a, b][..1] == [a];
    assert [a][..0] == [];
    assert Stacked([a]) == a + Stacked([]);
    assert a + "" == a;
  }

  // ---- the compiled build ----------------------------------------------------------

  /** The link-tag snippet as compiled into dist/index.js and dist/index.cjs: the same
      steps as StyleSheet, with the element held in a variable named `linkTag`. */
  const DistLinkHead: string :=
    "(()=>{" + "if(typeof window==='undefined')return;const linkTag=document.createElement('link');"
    + "linkTag.rel='stylesheet';linkTag.type='text/css';linkTag.href='"
  const DistLinkTail: string := "';document.head.appendChild(linkTag);})();\n"

  function DistStyleSheet(src: string): string {
    DistLinkHead + src + DistLinkTail
  }

  /** The fragment choice as compiled: the option is tested against `"DOC"` rather than
      `'APPEND_LINK'`. */
  function DistFragment(injectionType: string, base: string, format: string, cssFileName: string,
                        specifier: string): string {
    if injectionType == "DOC" then DistStyleSheet(base + cssFileName)
    else ModuleReference(specifier, format)
  }

  /** The placement as compiled: snippets are prepended only for `"DOC"`; every other value
      splices at the anchor. */
  function DistInjectedCode(injectionType: string, code: string, position: nat, fragments: seq<string>): string
    requires position <= |code|
  {
    if injectionType == "DOC" then Stacked(fragments) + code
    else code[..position] + Stacked(fragments) + code[position..]
  }

  /** Under `"DOC"` the compiled snippet installs `href = base + cssFileName`. */
  lemma DistDocLinks(injectionType: string, base: string, format: string, cssFileName: string,
                     specifier: string)
    requires injectionType == "DOC"
    ensures Unwrap(DistFragment(injectionType, base, format, cssFileName, specifier), DistLinkHead, DistLinkTail)
            == Some(base + cssFileName)
  {
    UnwrapWrapped(DistLinkHead, base + cssFileName, DistLinkTail);
  }

  /** In the compiled build the documented value `'APPEND_LINK'` yields a module reference,
      never a link snippet, and it is spliced at the anchor instead of at offset 0; the
      source prepends a link snippet for it. */
  lemma DistIgnoresAppendLink(injectionType: string, base: string, format: string, cssFileName: string,
                              specifier: string, code: string, position: nat, fragments: seq<string>)
    requires injectionType == "APPEND_LINK"
    requires position <= |code|
    ensures DistFragment(injectionType, base, format, cssFileName, specifier) == ModuleReference(specifier, format)
    ensures LinkHref(DistFragment(injectionType, base, format, cssFileName, specifier)) == None
    ensures DistFragment(injectionType, base, format, cssFileName, specifier)
            != Fragment(injectionType, base, format, cssFileName, specifier)
    ensures DistInjectedCode(injectionType, code, position, fragments)
            == code[..position] + Stacked(fragments) + code[position..]
    ensures InjectedCode(injectionType, code, position, fragments) == Stacked(fragments) + code
  {
    var d := DistFragment(injectionType, base, format, cssFileName, specifier);
    assert injectionType[0] == 'A';
    assert d[0] == 'i' || d[0] == 'r';
    assert LinkHead[0] == '(';
    assert LinkHref(d) == None;
    assert StyleSheet(base + cssFileName)[0] == '(';
  }
}
