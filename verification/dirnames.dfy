/** Git's "humanish" directory name for a clone, derived from the path part
    of a repository URL. The two path helpers follow POSIX path semantics:
    `Split` is `os.path.split` and `SplitExt` is `os.path.splitext` with `/`
    as the only separator and `.` as the extension separator. */
module DirNames {

  const SEP: char := '/'
  const DOT: char := '.'

  /** Position of the last `c` in `s`, or -1 when `s` has none. */
  function LastIndexOf(s: string, c: char): (r: int)
    ensures -1 <= r < |s|
    ensures r >= 0 ==> s[r] == c
    ensures forall j | r < j < |s| :: s[j] != c
  {
    if |s| == 0 then -1
    else if s[|s| - 1] == c then |s| - 1
    else LastIndexOf(s[..|s| - 1], c)
  }

  ghost predicate AllSlashes(s: string) {
    forall j | 0 <= j < |s| :: s[j] == SEP
  }

  /** `s` without its trailing slashes. */
  function StripTrailingSlashes(s: string): (r: string)
    ensures r <= s
    ensures forall j | |r| <= j < |s| :: s[j] == SEP
    ensures |r| > 0 ==> r[|r| - 1] != SEP
  {
    if |s| > 0 && s[|s| - 1] == SEP then StripTrailingSlashes(s[..|s| - 1]) else s
  }

  /** `os.path.split`: the text after the last slash is the tail; the text
      up to and including it is the head, whose trailing slashes are removed
      unless the head is made of slashes only. */
  function Split(p: string): (r: (string, string))
    ensures forall j | 0 <= j < |r.1| :: r.1[j] != SEP
    ensures |r.1| <= |p| && p[|p| - |r.1|..] == r.1
    ensures |r.0| <= |p| - |r.1|
    ensures |r.1| < |p| ==> p[|p| - |r.1| - 1] == SEP
    ensures AllSlashes(p[..|p| - |r.1|]) ==> r.0 == p[..|p| - |r.1|]
    ensures !AllSlashes(p[..|p| - |r.1|]) ==>
      && r.0 <= p
      && (forall j | |r.0| <= j < |p| - |r.1| :: p[j] == SEP)
      && |r.0| > 0 && r.0[|r.0| - 1] != SEP
  {
    var i := LastIndexOf(p, SEP) + 1;
    var head, tail := p[..i], p[i..];
    if head != [] && exists j | 0 <= j < |head| :: head[j] != SEP then
      (StripTrailingSlashes(head), tail)
    else
      (head, tail)
  }

  /** Position `k` starts the extension of `p`: it is the last dot, no slash
      follows it, and the final path component has a character other than a
      dot before it. */
  ghost predicate ExtensionAt(p: string, k: int) {
    && 0 <= k < |p|
    && p[k] == DOT
    && (forall j | k < j < |p| :: p[j] != DOT && p[j] != SEP)
    && (exists j | 0 <= j < k :: p[j] != DOT && forall m | j <= m < k :: p[m] != SEP)
  }

  /** `os.path.splitext`: splits off the extension, from the last dot of the
      final component on, unless that component is only dots up to it (a
      leading-dot name such as `.git` has no extension). */
  function SplitExt(p: string): (r: (string, string))
    ensures r.0 + r.1 == p
    ensures r.1 != [] <==> exists k :: ExtensionAt(p, k)
    ensures r.1 != [] ==> ExtensionAt(p, |r.0|)
  {
    var sepIndex := LastIndexOf(p, SEP);
    var dotIndex := LastIndexOf(p, DOT);
    if dotIndex > sepIndex && exists j | sepIndex + 1 <= j < dotIndex :: p[j] != DOT then
      assert ExtensionAt(p, dotIndex);
      (p[..dotIndex], p[dotIndex..])
    else
      assert forall k :: !ExtensionAt(p, k) by {
        forall k | ExtensionAt(p, k) ensures false {
          ExtensionIsLastDot(p, k);
        }
      }
      (p, [])
  }

  /** An extension starts at the last dot, after the last slash, and some
      character between the two is not a dot. */
  lemma {:induction false} ExtensionIsLastDot(p: string, k: int)
    requires ExtensionAt(p, k)
    ensures k == LastIndexOf(p, DOT)
    ensures LastIndexOf(p, SEP) < k
    ensures exists j | LastIndexOf(p, SEP) + 1 <= j < k :: p[j] != DOT
  {
  }

  /** The component a clone is named after: the final component of `path`,
      or the one before it when the final one is empty or starts with a dot. */
  function NamingComponent(path: string): (c: string)
    ensures Component(c)
  {
    var parts := Split(path);
    if |parts.1| == 0 || parts.1[0] == DOT then Split(parts.0).1 else parts.1
  }

  /** The name a single path component contributes: itself without its
      extension. */
  function Stem(component: string): (s: string)
    ensures s <= component
  {
    SplitExt(component).0
  }

  /** The directory name for a clone of the repository at URL path `path`:
      the naming component without its extension. */
  function DirNameFromPath(path: string): (name: string)
    ensures Component(name)
  {
    var c := NamingComponent(path);
    var name := Stem(c);
    assert forall j | 0 <= j < |name| :: name[j] == c[j];
    name
  }

  ghost predicate Component(c: string) {
    forall j | 0 <= j < |c| :: c[j] != SEP
  }

  /** `q` is a directory prefix: empty or ending in a slash. */
  ghost predicate DirPrefix(q: string) {
    q == [] || q[|q| - 1] == SEP
  }

  lemma {:induction false} SplitAfterSlash(q: string, c: string)
    requires DirPrefix(q) && Component(c)
    ensures Split(q + c).1 == c
  {
    var p := q + c;
    var i := LastIndexOf(p, SEP);
    if q != [] {
      assert p[|q| - 1] == SEP;
    }
    assert forall m | |q| <= m < |p| :: p[m] == c[m - |q|];
    assert i == |q| - 1;
    assert p[i + 1..] == c;
  }

  /** A final component that is non-empty and does not start with a dot is
      the one a clone is named after. */
  lemma {:induction false} LastNamingComponent(q: string, c: string)
    requires DirPrefix(q) && Component(c)
    requires c != [] && c[0] != DOT
    ensures NamingComponent(q + c) == c
  {
    SplitAfterSlash(q, c);
  }

  /** When the final component is empty or starts with a dot, the clone is
      named after the component before the slashes. */
  lemma {:induction false} ParentNamingComponent(q: string, c: string, slashes: string, t: string)
    requires DirPrefix(q) && Component(c) && c != []
    requires slashes != [] && AllSlashes(slashes)
    requires Component(t) && (t == [] || t[0] == DOT)
    ensures NamingComponent(q + c + slashes + t) == c
  {
    var dir := q + c + slashes;
    assert DirPrefix(dir);
    SplitAfterSlash(dir, t);
    var p := dir + t;
    assert p[..LastIndexOf(p, SEP) + 1] == dir;
    assert dir[|q|] != SEP;
    StripSlashesAfterName(q + c, slashes);
    assert Split(p).0 == q + c;
    SplitAfterSlash(q, c);
  }

  /** A path whose last component names the repository gives that
      component without its extension: `/x/openag_am2315.git` gives
      `openag_am2315`. */
  lemma {:induction false} LastComponentName(q: string, c: string)
    requires DirPrefix(q) && Component(c)
    requires c != [] && c[0] != DOT
    ensures DirNameFromPath(q + c) == Stem(c)
  {
    LastNamingComponent(q, c);
  }

  /** A path ending in slashes and then nothing or a dot-name such as
      `.git` gives the component before them: `/openag_am2315/.git` and
      `/bar/` give `openag_am2315` and `bar`. */
  lemma {:induction false} ParentComponentName(q: string, c: string, slashes: string, t: string)
    requires DirPrefix(q) && Component(c) && c != []
    requires slashes != [] && AllSlashes(slashes)
    requires Component(t) && (t == [] || t[0] == DOT)
    ensures DirNameFromPath(q + c + slashes + t) == Stem(c)
  {
    ParentNamingComponent(q, c, slashes, t);
  }

  /** Stripping the slashes that follow a name gives back the name. */
  lemma {:induction false} StripSlashesAfterName(s: string, slashes: string)
    requires s != [] && s[|s| - 1] != SEP
    requires AllSlashes(slashes)
    ensures StripTrailingSlashes(s + slashes) == s
    decreases |slashes|
  {
    if slashes != [] {
      var shorter := slashes[..|slashes| - 1];
      assert (s + slashes)[..|s + slashes| - 1] == s + shorter;
      StripSlashesAfterName(s, shorter);
    } else {
      assert s + slashes == s;
    }
  }

  /** A path of slashes only, possibly followed by nothing or by a
      dot-name, has no component to name the clone after: `/.git` and the
      empty path give the empty name. */
  lemma {:induction false} NoParentName(slashes: string, t: string)
    requires AllSlashes(slashes)
    requires Component(t) && (t == [] || t[0] == DOT)
    ensures DirNameFromPath(slashes + t) == ""
  {
    NoNamingComponent(slashes, t);
    EmptyStem();
  }

  /** The empty component has no extension to drop. */
  lemma {:induction false} EmptyStem()
    ensures Stem([]) == []
  {
    assert SplitExt([]).0 + SplitExt([]).1 == [];
  }

  /** Slashes followed by nothing or a dot-name leave no component to name
      the clone after. */
  lemma {:induction false} NoNamingComponent(slashes: string, t: string)
    requires AllSlashes(slashes)
    requires Component(t) && (t == [] || t[0] == DOT)
    ensures NamingComponent(slashes + t) == []
  {
    SplitSlashesThen(slashes, t);
    SplitSlashesThen(slashes, []);
    assert slashes + [] == slashes;
  }

  /** Splitting slashes followed by a component gives both back. */
  lemma {:induction false} SplitSlashesThen(slashes: string, t: string)
    requires AllSlashes(slashes) && Component(t)
    ensures Split(slashes + t) == (slashes, t)
  {
    var p := slashes + t;
    SplitAfterSlash(slashes, t);
    assert p[..|p| - |t|] == slashes;
  }

  /** A name followed by a dot and a dot-free suffix loses the suffix:
      `openag_am2315.git` gives `openag_am2315`. */
  lemma {:induction false} StemDropsExtension(name: string, ext: string)
    requires Component(name) && exists j | 0 <= j < |name| :: name[j] != DOT
    requires forall j | 0 <= j < |ext| :: ext[j] != DOT && ext[j] != SEP
    ensures Stem(name + [DOT] + ext) == name
  {
    var c := name + [DOT] + ext;
    assert forall m | 0 <= m < |name| :: c[m] == name[m];
    assert forall m | |name| < m < |c| :: c[m] == ext[m - |name| - 1];
    assert ExtensionAt(c, |name|);
    var r := SplitExt(c);
    ExtensionIsLastDot(c, |name|);
    ExtensionIsLastDot(c, |r.0|);
    assert r.0 == c[..|name|];
  }

  /** A name without dots has no extension. */
  lemma {:induction false} StemWithoutDot(c: string)
    requires forall j | 0 <= j < |c| :: c[j] != DOT
    ensures Stem(c) == c
  {
  }

  /** The three URL paths of openag's test suite. */
  lemma {:induction false} RepositoryPathExample()
    ensures DirNameFromPath("/OpenAgInitiative/openag_am2315.git") == "openag_am2315"
  {
    var name := "openag_am2315";
    assert name[0] != DOT && Component(name);
    StemDropsExtension(name, "git");
    assert "/OpenAgInitiative/openag_am2315.git" == "/OpenAgInitiative/" + (name + [DOT] + "git");
    LastComponentName("/OpenAgInitiative/", name + [DOT] + "git");
  }

  lemma {:induction false} DotGitPathExample()
    ensures DirNameFromPath("/openag_am2315/.git") == "openag_am2315"
  {
    StemWithoutDot("openag_am2315");
    assert "/openag_am2315/.git" == "/" + "openag_am2315" + "/" + ".git";
    ParentComponentName("/", "openag_am2315", "/", ".git");
  }

  lemma {:induction false} TrailingSlashPathExample()
    ensures DirNameFromPath("/bar/") == "bar"
  {
    StemWithoutDot("bar");
    assert "/bar/" == "/" + "bar" + "/" + "";
    ParentComponentName("/", "bar", "/", "");
  }
}
