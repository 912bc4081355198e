/**
 * The `.gitignore` both builders write into the artifact: a fixed list of
 * rules in which four lines name the docroot.
 */
module GitIgnore {
  /**
   * The lines of the template, with `docroot` substituted, section by
   * section. A few long literals are written as concatenations of pieces;
   * the text is the same.
   */
  function TemplateLines(docroot: string): (lines: seq<string>)
    ensures |lines| == 44
  {
    PrivateRules(docroot) + SystemRules() + DumpRules() + NpmRules() + ReportRules(docroot)
    + TestToolRules() + LocalRules()
  }

  /** Settings, drush overrides and user files of the docroot, and the private files. */
  function PrivateRules(docroot: string): (lines: seq<string>)
    ensures |lines| == 7
  {
    [ "# Ignore sensitive information.",
      "/" + docroot + "/sites/" + "*/settings.local.php",
      "# Ignore local drush settings",
      "/" + docroot + "/sites/" + "*/local.drush.yml",
      "# Ignore paths that contain " + "user-generated content.",
      "/" + docroot + "/sites/" + "*/files",
      "/private-files/*" ]
  }

  /** Operating-system and IDE files. */
  function SystemRules(): (lines: seq<string>)
    ensures |lines| == 9
  {
    [ "# OS X files.",
      ".DS_STORE",
      ".Ds_Store",
      ".DS_Store",
      "# Linux files.",
      ".directory",
      "# IDE related directories.",
      "/nbproject/private/",
      ".idea" ]
  }

  /** Database dumps and archives. */
  function DumpRules(): (lines: seq<string>)
    ensures |lines| == 7
  {
    [ "# Database and compressed files.",
      "*.mysql",
      "*.sql",
      "*.gz",
      "*.zip",
      "*.rar",
      "*.7z" ]
  }

  /** Front-end build leftovers. */
  function NpmRules(): (lines: seq<string>)
    ensures |lines| == 4
  {
    [ "# NPM.",
      "node_modules/",
      ".sass-cache",
      ".cache" ]
  }

  /** Test reports, and the unmanaged local settings of the docroot. */
  function ReportRules(docroot: string): (lines: seq<string>)
    ensures |lines| == 5
  {
    [ "# Test related Reports.",
      "/reports/behat/errors/*",
      "/reports/behat/junit/*",
      "/reports/codereview/*",
      "/" + docroot + "/sites/" + "default/settings.local.unmanaged.php" ]
  }

  /** BackstopJS output and temporary files. */
  function TestToolRules(): (lines: seq<string>)
    ensures |lines| == 5
  {
    [ "# BackstopJS",
      "/tests/backstopjs/" + "backstop_data/html_report",
      "/tests/backstopjs/" + "backstop_data/bitmaps_test",
      "# Temporary files",
      "/tmp/*" ]
  }

  /** Docker-compose overrides, `.gitkeep` files and editor settings. */
  function LocalRules(): (lines: seq<string>)
    ensures |lines| == 7
  {
    [ "# Ignore docker-compose " + "env specific settings.",
      "/docker-compose.override.yml",
      "# Ensure .gitkeep files " + "are commited so folder " + "structure get respected.",
      "!.gitkeep",
      "# Ignore editor config files.",
      "/.editorconfig",
      "/.gitattributes'" ]
  }

  /** The positions of the lines that name the docroot. */
  const DocrootLines: set<int> := {1, 3, 5, 31}

  /** Lines joined by newlines, with no newline after the last one, as in the PHP string literal. */
  function JoinLines(lines: seq<string>): string
    requires |lines| >= 1
  {
    if |lines| == 1 then lines[0] else JoinLines(lines[..|lines| - 1]) + "\n" + lines[|lines| - 1]
  }

  /** The content `generateGitIgnore()` writes. */
  function GitIgnoreText(docroot: string): string {
    JoinLines(TemplateLines(docroot))
  }

  /** Joined lines fall apart at any line boundary into the two joined halves. */
  lemma {:induction false} JoinSplit(lines: seq<string>, k: nat)
    requires 1 <= k < |lines|
    ensures JoinLines(lines) == JoinLines(lines[..k]) + "\n" + JoinLines(lines[k..])
    decreases |lines|
  {
    var n := |lines|;
    var last := lines[n - 1];
    if k == n - 1 {
      assert lines[..n - 1] == lines[..k];
      assert JoinLines(lines[k..]) == last;
    } else {
      var front := lines[..n - 1];
      var rest := lines[k..];
      JoinSplit(front, k);
      assert front[..k] == lines[..k];
      assert rest[..|rest| - 1] == front[k..];
      assert rest[|rest| - 1] == last;
      var a, b := JoinLines(lines[..k]), JoinLines(front[k..]);
      calc {
        JoinLines(lines);
        JoinLines(front) + "\n" + last;
        a + "\n" + b + "\n" + last;
        a + "\n" + (b + "\n" + last);
        a + "\n" + JoinLines(rest);
      }
    }
  }

  /** A line of the list appears in the joined text as a whole line, between newlines. */
  lemma InnerLine(lines: seq<string>, i: nat)
    requires 0 < i < |lines| - 1
    ensures JoinLines(lines) == JoinLines(lines[..i]) + "\n" + (lines[i] + "\n" + JoinLines(lines[i + 1..]))
  {
    var rest := lines[i..];
    var a, b := JoinLines(lines[..i]), JoinLines(lines[i + 1..]);
    assert JoinLines(lines) == a + "\n" + JoinLines(rest) by {
      JoinSplit(lines, i);
    }
    assert JoinLines(rest) == lines[i] + "\n" + b by {
      JoinSplit(rest, 1);
      assert rest[..1] == [lines[i]];
      assert rest[1..] == lines[i + 1..];
    }
  }

  /** Only the four docroot lines depend on the docroot. */
  lemma OtherLinesFixed(d1: string, d2: string)
    ensures forall i :: 0 <= i < 44 && i !in DocrootLines ==> TemplateLines(d1)[i] == TemplateLines(d2)[i]
  {
    var mid := SystemRules() + DumpRules() + NpmRules();
    var tail := TestToolRules() + LocalRules();
    var p1, p2 := PrivateRules(d1), PrivateRules(d2);
    var r1, r2 := ReportRules(d1), ReportRules(d2);
    var t1 := p1 + mid + r1 + tail;
    var t2 := p2 + mid + r2 + tail;
    assert TemplateLines(d1) == t1;
    assert TemplateLines(d2) == t2;
    forall i | 0 <= i < 44 && i !in DocrootLines ensures t1[i] == t2[i] {
      if i < 7 {
        assert t1[i] == p1[i] && t2[i] == p2[i];
      } else if i < 27 {
        assert t1[i] == mid[i - 7] == t2[i];
      } else if i < 32 {
        assert t1[i] == r1[i - 27] && t2[i] == r2[i - 27];
      } else {
        assert t1[i] == tail[i - 32] == t2[i];
      }
    }
  }

  /** Each docroot line is a rule under `/<docroot>/sites/`. */
  lemma DocrootLinesUnderSites(docroot: string)
    ensures forall i :: i in DocrootLines ==> 0 <= i < 44 && "/" + docroot + "/sites/" <= TemplateLines(docroot)[i]
  {
    var t := TemplateLines(docroot);
    var p, r := PrivateRules(docroot), ReportRules(docroot);
    assert t[1] == p[1] && t[3] == p[3] && t[5] == p[5];
    assert t[31] == r[4];
  }

  /**
   * The file keeps `.gitkeep` files by a line of its own, and ends with the
   * stray quote of the literal, with no final newline.
   */
  lemma GitIgnoreShape(docroot: string)
    ensures var lines := TemplateLines(docroot);
      GitIgnoreText(docroot) == JoinLines(lines[..40]) + "\n" + ("!.gitkeep" + "\n" + JoinLines(lines[41..]))
    ensures var text := GitIgnoreText(docroot);
      |text| >= 16 && text[|text| - 16..] == "/.gitattributes'"
  {
    var lines := TemplateLines(docroot);
    assert lines[40] == LocalRules()[3];
    InnerLine(lines, 40);
    assert lines[43] == "/.gitattributes'";
    var text := JoinLines(lines);
    assert text == JoinLines(lines[..43]) + "\n" + "/.gitattributes'";
  }
}
