/** The Git configuration that deployment/repository_snapshot.py writes, and the words that the validator
    in deployment/privileged_installer.py forbids in it. */
module SnapshotConfig {
  import opened Text
  const FORBIDDEN: seq<string> := ["[remote", "[credential", "[http", "[url", "[include", "alternate"]

  predicate SafeConfig(text: string) {
    text != "" && !ContainsAny(Lower(text), FORBIDDEN)
  }

  /** The generated configuration, cut where a forbidden word could start: at its bracket and its letter n. */
  const CONFIG_HEAD: string := "core]\n" + ("\trepository" + "formatversio")
  const CONFIG_TAIL: string :=
    " = 0\n" + ("\tfilemode" + (" = true\n" + ("\tbare = false\n" + ("\tlogallref" + ("updates = " + "false\n")))))
  const CONFIG_TEXT: string := "[" + (CONFIG_HEAD + ("n" + CONFIG_TAIL))

  lemma Regroup(a: string, b: string, c: string, d: string, e: string, f: string, g: string, h: string, k: string, l: string, m: string, n: string)
    ensures a + ((b + (c + d)) + (e + (f + (g + (h + (k + (l + (m + n)))))))) == (a + b) + (c + d + e + f) + (g + h) + k + (l + m + n)
  {
  }

  lemma FormatLine()
    ensures "\trepository" + "formatversio" + "n" + " = 0\n" == "\trepositoryformatversion = 0\n"
  {
  }

  lemma UpdatesLine()
    ensures "\tlogallref" + "updates = " + "false\n" == "\tlogallrefupdates = false\n"
  {
  }

  lemma ShortLines()
    ensures "[" + "core]\n" == "[core]\n" && "\tfilemode" + " = true\n" == "\tfilemode = true\n"
  {
  }

  /** Spelled out, the five lines of the core section. */
  lemma ConfigTextIs()
    ensures CONFIG_TEXT ==
      "[core]\n" + "\trepositoryformatversion = 0\n" + "\tfilemode = true\n" + "\tbare = false\n" + "\tlogallrefupdates = false\n"
  {
    Regroup("[", "core]\n", "\trepository", "formatversio", "n", " = 0\n", "\tfilemode", " = true\n", "\tbare = false\n",
            "\tlogallref", "updates = ", "false\n");
    FormatLine();
    UpdatesLine();
    ShortLines();
  }

  /** A configuration with a remote, a credential helper, an HTTP or URL section, an include or an alternate, in
      whatever case, is refused; so is an empty one. */
  lemma SafeConfigMeans(text: string)
    ensures SafeConfig(text) <==>
              && text != ""
              && !Contains(Lower(text), "[remote") && !Contains(Lower(text), "[credential") && !Contains(Lower(text), "[http")
              && !Contains(Lower(text), "[url") && !Contains(Lower(text), "[include") && !Contains(Lower(text), "alternate")
  {
    assert FORBIDDEN[0] == "[remote" && FORBIDDEN[1] == "[credential" && FORBIDDEN[2] == "[http";
    assert FORBIDDEN[3] == "[url" && FORBIDDEN[4] == "[include" && FORBIDDEN[5] == "alternate";
  }

  /** Text in which no forbidden word starts or ends. */
  predicate Harmless(s: string) {
    forall c :: c in s ==> c != '[' && c != 'n' && !('A' <= c <= 'Z')
  }

  lemma HarmlessPair(a: string, b: string)
    requires Harmless(a) && Harmless(b)
    ensures Harmless(a + b)
  {
  }

  lemma HeadIsHarmless()
    ensures Harmless(CONFIG_HEAD)
  {
    assert Harmless("core]\n");
    assert Harmless("\trepository");
    assert Harmless("formatversio");
  }

  lemma SettingsAreHarmless()
    ensures Harmless("\tbare = false\n" + ("\tlogallref" + ("updates = " + "false\n")))
  {
    assert Harmless("\tbare = false\n");
    assert Harmless("\tlogallref");
    assert Harmless("updates = ");
    assert Harmless("false\n");
    HarmlessPair("updates = ", "false\n");
  }

  lemma TailIsHarmless()
    ensures Harmless(CONFIG_TAIL)
  {
    assert Harmless(" = 0\n");
    assert Harmless("\tfilemode");
    assert Harmless(" = true\n");
    SettingsAreHarmless();
  }

  lemma HarmlessIsLower(head: string, tail: string)
    requires Harmless(head) && Harmless(tail)
    ensures var s := "[" + (head + ("n" + tail)); Lower(s) == s
  {
    var s := "[" + (head + ("n" + tail));
    forall i | 0 <= i < |s| ensures !('A' <= s[i] <= 'Z') {
      assert s[i] == '[' || s[i] in head || s[i] == 'n' || s[i] in tail;
    }
  }

  lemma NoSection(head: string, tail: string, marker: string, i: nat)
    requires Harmless(head) && Harmless(tail) && |head| >= 2 && head[0] == 'c' && head[1] == 'o'
    requires |marker| >= 3 && marker[0] == '[' && !(marker[1] == 'c' && marker[2] == 'o')
    ensures !OccursAt("[" + (head + ("n" + tail)), marker, i)
  {
    var s := "[" + (head + ("n" + tail));
    if i + |marker| <= |s| {
      var found := s[i..i + |marker|];
      assert found[0] == s[i] && found[1] == s[i + 1] && found[2] == s[i + 2];
      assert i == 0 || s[i] in head || s[i] == 'n' || s[i] in tail;
    }
  }

  lemma NoWord(head: string, tail: string, marker: string, i: nat)
    requires Harmless(head) && Harmless(tail) && |head| >= 2 && head[|head| - 1] == 'o'
    requires |marker| >= 6 && marker[5] == 'n' && marker[4] != 'o'
    ensures !OccursAt("[" + (head + ("n" + tail)), marker, i)
  {
    var s := "[" + (head + ("n" + tail));
    if i + |marker| <= |s| {
      var found := s[i..i + |marker|];
      assert found[4] == s[i + 4] && found[5] == s[i + 5];
      assert i + 5 == 1 + |head| || s[i + 5] in head || s[i + 5] in tail;
    }
  }

  /** The builder's configuration has no remote, credential, include or alternate. */
  lemma ConfigTextIsSafe()
    ensures SafeConfig(CONFIG_TEXT)
  {
    HeadIsHarmless();
    TailIsHarmless();
    HarmlessIsLower(CONFIG_HEAD, CONFIG_TAIL);
    assert |CONFIG_HEAD| == 29 && CONFIG_HEAD[0] == 'c' && CONFIG_HEAD[1] == 'o' && CONFIG_HEAD[28] == 'o';
    forall m, i: nat | 0 <= m < |FORBIDDEN| ensures !OccursAt(CONFIG_TEXT, FORBIDDEN[m], i) {
      if m == 5 {
        NoWord(CONFIG_HEAD, CONFIG_TAIL, FORBIDDEN[m], i);
      } else {
        NoSection(CONFIG_HEAD, CONFIG_TAIL, FORBIDDEN[m], i);
      }
    }
  }
}
