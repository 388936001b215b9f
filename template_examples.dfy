/** Worked cases of the template engine, each derived from the general lemmas. */
module TemplateExamples {
  import opened Wrappers
  import opened JsValue
  import opened UriEncoding
  import opened TreeTransforms
  import opened Template
  import opened TemplateLemmas

  /** `s` without any character that could open a placeholder. */
  predicate Plain(s: string) {
    forall i :: 0 <= i < |s| ==> s[i] != '{' && s[i] != '$'
  }

  /** Plain text followed by plain text is plain. */
  lemma PlainConcat(x: string, y: string)
    requires Plain(x) && Plain(y)
    ensures Plain(x + y)
  {
    var m := x + y;
    forall i | 0 <= i < |m| ensures m[i] != '{' && m[i] != '$' {
      if i < |x| { assert m[i] == x[i]; } else { assert m[i] == y[i - |x|]; }
    }
  }

  /** Plain text is left alone by both replacements for any leaf. */
  lemma PlainUnchanged(s: string, path: string, text: string)
    requires Plain(s)
    ensures ReplaceLeaf(s, path, text) == s
  {
    PrefixKept(s, "", "{{", "}}", path, text);
    PrefixKept(s, "", "${", "}", path, text);
    assert s + "" == s;
  }

  /** `{{path}}` alone becomes the leaf's text. */
  lemma WholePlaceholder(path: string, text: string)
    requires |path| > 0 && !IsJsSpace(path[0])
    ensures ReplaceAll("{{" + path + "}}", "{{", "}}", path, text) == text
  {
    ReplacePlaceholder("", path, "", "", "{{", "}}", text);
    assert "{{" + "" + path + "" + "}}" + "" == "{{" + path + "}}";
  }

  /**
   * Constants `{server: {name: "Acme"}}` turn the template
   * `Welcome to {{server.name}}` into `Welcome to Acme`.
   */
  lemma WelcomeExample()
    ensures Substitute(Obj([("server", Obj([("name", Str("Acme"))]))]), "Welcome to {{server.name}}")
         == Success("Welcome to Acme")
  {
    WelcomeTree();
    WelcomeLeaves();
    WelcomeText();
  }

  lemma WelcomeTree()
    ensures var inner := Obj([("name", Str("Acme"))]);
      var root := Obj([("server", inner)]);
      WithEncoded(root) == Success(Obj([("server", inner), ("@ENCODED", root)]))
  {
    var inner := Obj([("name", Str("Acme"))]);
    var root := Obj([("server", inner)]);
    UrlEncodedIdentity(root);
    assert "server"[0] != "@ENCODED"[0];
    assert !HasKey(root.fields, "@ENCODED");
    PutNewAppends(root.fields, "@ENCODED", root);
    assert root.fields + [("@ENCODED", root)] == [("server", inner), ("@ENCODED", root)];
  }

  lemma WelcomeLeaves()
    ensures var inner := Obj([("name", Str("Acme"))]);
      var root := Obj([("server", inner)]);
      LeavesOf([], Obj([("server", inner), ("@ENCODED", root)]))
        == [Leaf(["server", "name"], "Acme"), Leaf(["@ENCODED", "server", "name"], "Acme")]
  {
    var inner := Obj([("name", Str("Acme"))]);
    var root := Obj([("server", inner)]);
    var t := Obj([("server", inner), ("@ENCODED", root)]);
    var first := Leaf(["server", "name"], "Acme");
    var second := Leaf(["@ENCODED", "server", "name"], "Acme");
    assert ["server"] + ["name"] == first.path;
    assert ["@ENCODED", "server"] + ["name"] == second.path;
    assert ["@ENCODED"] + ["server"] == ["@ENCODED", "server"];
    assert [] + ["server"] == ["server"];
    assert [] + ["@ENCODED"] == ["@ENCODED"];
    assert LeavesOf(["server"], inner) == [first] by {
      assert PropertyLeaves(["server"], "name", Str("Acme")) == [first];
      assert FieldLeaves(["server"], inner, 1) == [] + [first];
    }
    assert LeavesOf(["@ENCODED"], root) == [second] by {
      assert PropertyLeaves(["@ENCODED", "server"], "name", Str("Acme")) == [second];
      assert FieldLeaves(["@ENCODED", "server"], inner, 1) == [] + [second];
      assert LeavesOf(["@ENCODED", "server"], inner) == [second];
      assert FieldLeaves(["@ENCODED"], root, 1) == [] + [second];
    }
    assert FieldLeaves([], t, 1) == [] + [first];
    assert PropertyLeaves([], "@ENCODED", root) == [second];
    assert FieldLeaves([], t, 2) == [first] + [second];
  }

  /** Plain text followed by one placeholder: the placeholder becomes the (plain) text. */
  lemma PlaceholderAfterPlain(a: string, path: string, text: string)
    requires Plain(a) && Plain(text)
    requires |path| > 0 && !IsJsSpace(path[0])
    ensures ReplaceLeaf(a + "{{" + path + "}}", path, text) == a + text
  {
    var placeholder := "{{" + path + "}}";
    assert a + "{{" + path + "}}" == a + placeholder;
    PrefixKept(a, placeholder, "{{", "}}", path, text);
    WholePlaceholder(path, text);
    var m := a + text;
    assert ReplaceAll(a + placeholder, "{{", "}}", path, text) == m;
    assert Plain(m) by {
      forall i | 0 <= i < |m| ensures m[i] != '{' && m[i] != '$' {
        if i < |a| { assert m[i] == a[i]; } else { assert m[i] == text[i - |a|]; }
      }
    }
    PrefixKept(m, "", "${", "}", path, text);
    assert m + "" == m;
  }

  /** The welcome template is plain text followed by one placeholder. */
  lemma WelcomeTemplateShape()
    ensures "Welcome to {{server.name}}" == "Welcome to " + "{{" + "server.name" + "}}"
    ensures Plain("Welcome to ")
  {
  }

  /** The welcome text holds no character that could open a placeholder. */
  lemma WelcomeResultPlain()
    ensures "Welcome to " + "Acme" == "Welcome to Acme"
    ensures Plain("Welcome to Acme")
  {
  }

  lemma WelcomeFirstPass()
    ensures ReplaceLeaf("Welcome to {{server.name}}", "server.name", "Acme") == "Welcome to Acme"
  {
    WelcomeTemplateShape();
    WelcomeResultPlain();
    PlaceholderAfterPlain("Welcome to ", "server.name", "Acme");
  }

  /** Two leaves are two passes, in list order. */
  lemma ApplyTwo(first: Leaf, second: Leaf, s: string)
    ensures Apply([first, second], s)
         == ReplaceLeaf(ReplaceLeaf(s, Join(first.path), first.text), Join(second.path), second.text)
  {
    var mid := ReplaceLeaf(s, Join(first.path), first.text);
    assert [first, second][1..] == [second];
    assert Apply([first, second], s) == Apply([second], mid);
  }

  /** Two leaf passes: the first replaces, the second finds nothing. */
  lemma TwoPasses(first: Leaf, second: Leaf, s: string, mid: string)
    requires ReplaceLeaf(s, Join(first.path), first.text) == mid
    requires Plain(mid)
    ensures Apply([first, second], s) == mid
  {
    PlainUnchanged(mid, Join(second.path), second.text);
    ApplyTwo(first, second, s);
  }

  lemma WelcomeJoin()
    ensures Join(["server", "name"]) == "server.name"
  {
    assert ["server", "name"][1..] == ["name"];
  }

  lemma WelcomeText()
    ensures Apply([Leaf(["server", "name"], "Acme"), Leaf(["@ENCODED", "server", "name"], "Acme")],
                  "Welcome to {{server.name}}") == "Welcome to Acme"
  {
    WelcomeJoin();
    WelcomeFirstPass();
    WelcomeResultPlain();
    TwoPasses(Leaf(["server", "name"], "Acme"), Leaf(["@ENCODED", "server", "name"], "Acme"),
              "Welcome to {{server.name}}", "Welcome to Acme");
  }

  /** No character of `s` is `c`. */
  lemma NoCharNoOccurrence(s: string, t: string)
    requires |t| > 0 && forall i :: 0 <= i < |s| ==> s[i] != t[0]
    ensures NoOccurrence(s, t)
  {
    forall i | 0 <= i < |s| ensures !OccursAt(s, i, t) {
      if i + |t| <= |s| {
        assert s[i..i + |t|][0] == s[i];
      }
    }
  }

  /**
   * `{{q}}` is no placeholder for another name `path`, even one that `q`
   * extends: `{{channel_id}}` is inert for the leaf `channel`.
   */
  lemma OtherPlaceholderInert(q: string, path: string)
    requires OtherName(q, path)
    ensures PathInert("{{" + q + "}}", path)
  {
    var s := "{{" + q + "}}";
    OtherNameNoMatch(q, "", path);
    assert s + "" == s;
    OtherNameNoDollar(q, path);
    NoCharNoOccurrence(s, "${");
    NoOpenInert(s, "${", "}", path);
  }

  /**
   * Constants `{a: [1, 2]}` give no placeholder `{{a.0}}`: the array is skipped.
   * (Its percent-encoded copy is an object, so `{{@ENCODED.a.0}}` is one.)
   */
  lemma ArrayExample()
    ensures Substitute(Obj([("a", Arr([Num(1), Num(2)]))]), "{{a.0}}") == Success("{{a.0}}")
  {
    ArrayTree();
    ArrayLeaves();
    ArrayText();
  }

  lemma ArrayTree()
    ensures var arr := Arr([Num(1), Num(2)]);
      WithEncoded(Obj([("a", arr)]))
        == Success(Obj([("a", arr), ("@ENCODED", Obj([("a", Obj([("0", Str("1")), ("1", Str("2"))]))]))]))
  {
    var arr := Arr([Num(1), Num(2)]);
    var root := Obj([("a", arr)]);
    assert !HasNull(arr) by {
      assert !HasNull(arr.items[0]) && !HasNull(arr.items[1]);
    }
    UrlEncodeValuesMirrors(root);
    var e := UrlEncoded(root).value;
    assert Mirrors(arr, e.fields[0].1);
    var ea := e.fields[0].1;
    assert ToText(Num(1)) == "1" && ToText(Num(2)) == "2";
    EncodeKeepsExactlyUnreserved("1");
    EncodeKeepsExactlyUnreserved("2");
    assert NatToDecimal(0) == "0" && NatToDecimal(1) == "1";
    assert ea.fields[0] == ("0", Str("1"));
    assert ea.fields[1] == ("1", Str("2"));
    assert ea == Obj([("0", Str("1")), ("1", Str("2"))]);
    assert e == Obj([("a", ea)]);
    assert "a"[0] != "@ENCODED"[0];
    PutNewAppends(root.fields, "@ENCODED", e);
    assert root.fields + [("@ENCODED", e)] == [("a", arr), ("@ENCODED", e)];
  }

  lemma ArrayLeaves()
    ensures var arr := Arr([Num(1), Num(2)]);
      LeavesOf([], Obj([("a", arr), ("@ENCODED", Obj([("a", Obj([("0", Str("1")), ("1", Str("2"))]))]))]))
        == [Leaf(["@ENCODED", "a", "0"], "1"), Leaf(["@ENCODED", "a", "1"], "2")]
  {
    var arr := Arr([Num(1), Num(2)]);
    var ea := Obj([("0", Str("1")), ("1", Str("2"))]);
    var e := Obj([("a", ea)]);
    var t := Obj([("a", arr), ("@ENCODED", e)]);
    var l0 := Leaf(["@ENCODED", "a", "0"], "1");
    var l1 := Leaf(["@ENCODED", "a", "1"], "2");
    assert ["@ENCODED", "a"] + ["0"] == l0.path;
    assert ["@ENCODED", "a"] + ["1"] == l1.path;
    assert ["@ENCODED"] + ["a"] == ["@ENCODED", "a"];
    assert [] + ["@ENCODED"] == ["@ENCODED"];
    assert LeavesOf(["@ENCODED", "a"], ea) == [l0, l1] by {
      assert PropertyLeaves(["@ENCODED", "a"], "0", Str("1")) == [l0];
      assert PropertyLeaves(["@ENCODED", "a"], "1", Str("2")) == [l1];
      assert FieldLeaves(["@ENCODED", "a"], ea, 1) == [] + [l0];
      assert FieldLeaves(["@ENCODED", "a"], ea, 2) == [l0] + [l1];
    }
    assert LeavesOf(["@ENCODED"], e) == [l0, l1] by {
      assert FieldLeaves(["@ENCODED"], e, 1) == [] + [l0, l1];
    }
    assert PropertyLeaves([], "a", arr) == [];
    assert FieldLeaves([], t, 1) == [];
    assert PropertyLeaves([], "@ENCODED", e) == [l0, l1];
    assert FieldLeaves([], t, 2) == [] + [l0, l1];
  }

  lemma ArrayText()
    ensures Apply([Leaf(["@ENCODED", "a", "0"], "1"), Leaf(["@ENCODED", "a", "1"], "2")], "{{a.0}}") == "{{a.0}}"
  {
    var leaves := [Leaf(["@ENCODED", "a", "0"], "1"), Leaf(["@ENCODED", "a", "1"], "2")];
    assert Join(leaves[0].path) == "@ENCODED.a.0";
    assert Join(leaves[1].path) == "@ENCODED.a.1";
    assert "{{" + "a.0" + "}}" == "{{a.0}}";
    assert "a.0"[0] != "@ENCODED.a.0"[0];
    OtherPlaceholderInert("a.0", "@ENCODED.a.0");
    OtherPlaceholderInert("a.0", "@ENCODED.a.1");
    ApplyInert(leaves, "{{a.0}}");
  }

  /** A leaf's placeholder alone becomes the leaf's text (a text without `$`). */
  lemma WholeLeaf(path: string, text: string)
    requires |path| > 0 && !IsJsSpace(path[0])
    requires forall i :: 0 <= i < |text| ==> text[i] != '$'
    ensures ReplaceLeaf("{{" + path + "}}", path, text) == text
  {
    WholePlaceholder(path, text);
    PrefixKept(text, "", "${", "}", path, text);
    assert text + "" == text;
  }

  /** A name that can stand inside a placeholder: no brace, `$` or whitespace. */
  predicate SimpleName(q: string) {
    |q| > 0 && forall i :: 0 <= i < |q| ==> q[i] != '{' && q[i] != '}' && q[i] != '$' && !IsJsSpace(q[i])
  }

  /** The placeholder `{{b}}` of a simple name holds no `$`. */
  lemma PlaceholderNoDollar(b: string)
    requires SimpleName(b)
    ensures forall i :: 0 <= i < |"{{" + b + "}}"| ==> ("{{" + b + "}}")[i] != '$'
  {
    forall i | 0 <= i < |"{{" + b + "}}"| ensures ("{{" + b + "}}")[i] != '$' {
      if 2 <= i < |b| + 2 { assert ("{{" + b + "}}")[i] == b[i - 2]; }
    }
  }

  /**
   * Replacements are sequential: when leaf `a` holds the placeholder of a
   * later leaf `b`, the template `{{a}}` ends up as `b`'s text.
   */
  lemma SequentialExample(a: string, b: string, x: string)
    requires SimpleName(a) && SimpleName(b)
    requires forall i :: 0 <= i < |x| ==> x[i] != '$'
    ensures Apply([Leaf([a], "{{" + b + "}}"), Leaf([b], x)], "{{" + a + "}}") == x
  {
    var l1 := Leaf([a], "{{" + b + "}}");
    var l2 := Leaf([b], x);
    ApplyTwo(l1, l2, "{{" + a + "}}");
    PlaceholderNoDollar(b);
    WholeLeaf(a, "{{" + b + "}}");
    WholeLeaf(b, x);
  }

  /**
   * ... but not by an earlier one: with `b`'s leaf first, and `a` another
   * name (possibly one extending `b`), the template `{{a}}` ends up as `{{b}}`.
   */
  lemma SequentialOrderMatters(a: string, b: string, x: string)
    requires SimpleName(a) && SimpleName(b) && a != b
    ensures Apply([Leaf([b], x), Leaf([a], "{{" + b + "}}")], "{{" + a + "}}") == "{{" + b + "}}"
  {
    var l1 := Leaf([b], x);
    var l2 := Leaf([a], "{{" + b + "}}");
    ApplyTwo(l1, l2, "{{" + a + "}}");
    OtherPlaceholderInert(a, b);
    ReplaceAllInert("{{" + a + "}}", "{{", "}}", b, x);
    ReplaceAllInert("{{" + a + "}}", "${", "}", b, x);
    PlaceholderNoDollar(b);
    WholeLeaf(a, "{{" + b + "}}");
  }

  /** `{{path}}` at the scan point is replaced and the scan goes on after it. */
  lemma PlaceholderThen(path: string, rest: string, repl: string)
    requires |path| > 0 && !IsJsSpace(path[0])
    ensures ReplaceAll(("{{" + path + "}}") + rest, "{{", "}}", path, repl) == repl + ReplaceAll(rest, "{{", "}}", path, repl)
  {
    assert "{{" + "" + path + "" + "}}" + rest == ("{{" + path + "}}") + rest;
    ReplacePlaceholder("", path, "", rest, "{{", "}}", repl);
  }

  /** The `{{ }}` pass over `{{a}}`, plain text and `{{q}}`. */
  lemma ResolvedBesideUnresolvedFirst(a: string, q: string, sep: string, t: string)
    requires SimpleName(a) && SimpleName(q) && q != a
    requires Plain(sep)
    ensures ReplaceAll(("{{" + a + "}}") + (sep + ("{{" + q + "}}")), "{{", "}}", a, t) == t + (sep + ("{{" + q + "}}"))
  {
    var u := "{{" + q + "}}";
    PlaceholderThen(a, sep + u, t);
    PrefixKept(sep, u, "{{", "}}", a, t);
    UnresolvedPlaceholderKept(q, "", a, t);
    assert u + "" == u;
  }

  /** The `${ }` pass leaves plain text followed by `{{q}}` as it is. */
  lemma ResolvedBesideUnresolvedSecond(a: string, q: string, m: string, t: string)
    requires SimpleName(a) && SimpleName(q) && q != a
    requires Plain(m)
    ensures ReplaceAll(m + ("{{" + q + "}}"), "${", "}", a, t) == m + ("{{" + q + "}}")
  {
    var u := "{{" + q + "}}";
    PrefixKept(m, u, "${", "}", a, t);
    UnresolvedPlaceholderKept(q, "", a, t);
    assert u + "" == u;
  }

  /**
   * Regrouping three texts, kept apart from the lemma below so that the
   * regrouping is proved without its replacement terms in view.
   */
  lemma ConcatAssoc(x: string, y: string, z: string)
    ensures x + y + z == x + (y + z)
  {
  }

  /**
   * `{{a}}`, plain text and `{{q}}` for a leaf `a` and any other simple name
   * `q`, `a`'s extensions such as `a_id` included: the leaf's placeholder is replaced and `{{q}}`, which names
   * no such leaf, is kept as written.
   */
  lemma ResolvedBesideUnresolved(a: string, q: string, sep: string, t: string)
    requires SimpleName(a) && SimpleName(q) && q != a
    requires Plain(sep) && Plain(t)
    ensures ReplaceLeaf(("{{" + a + "}}") + sep + ("{{" + q + "}}"), a, t) == t + sep + ("{{" + q + "}}")
  {
    var p := "{{" + a + "}}";
    var u := "{{" + q + "}}";
    ConcatAssoc(p, sep, u);
    ResolvedBesideUnresolvedFirst(a, q, sep, t);
    PlainConcat(t, sep);
    ConcatAssoc(t, sep, u);
    ResolvedBesideUnresolvedSecond(a, q, t + sep, t);
  }
}
