/** Path handling of the manager: the working-directory resolver
    (`Docker._get_working_directory`) and the two-argument `os.path.join`
    (POSIX flavour) that the listing helpers use. */
module Paths {
  import opened Text

  /** A path the resolver leaves alone: absolute, or explicitly home-relative. */
  predicate IsAnchored(p: string) {
    StartsWith(p, "/") || StartsWith(p, "~/")
  }

  /** `_get_working_directory`: an anchored path is kept, anything else is made
      relative to the container user's home by prefixing `~/`. */
  function WorkingDirectory(p: string): (r: string)
    ensures IsAnchored(r)
    ensures r == p <==> IsAnchored(p)
    ensures !IsAnchored(p) ==> r == "~/" + p
  {
    if StartsWith(p, "/") || StartsWith(p, "~/") then p else "~/" + p
  }

  /** Resolving twice is resolving once; `run` relies on this when a caller
      passes an already resolved directory. */
  lemma WorkingDirectoryIdempotent(p: string)
    ensures WorkingDirectory(WorkingDirectory(p)) == WorkingDirectory(p)
  {
  }

  /** The empty path stands for the home directory itself. */
  lemma EmptyPathIsHome()
    ensures WorkingDirectory("") == "~/"
  {
  }

  /** `os.path.join(a, b)` on POSIX: an absolute `b` replaces `a`; otherwise `b`
      is appended, with a `/` in between unless `a` is empty or already ends
      with one. */
  function PathJoin(a: string, b: string): (r: string)
    ensures StartsWith(b, "/") ==> r == b
    ensures !StartsWith(b, "/") ==> StartsWith(r, a) && EndsWith(r, b)
    ensures !StartsWith(b, "/") && a != "" && !EndsWith(a, "/") ==> r == a + "/" + b
    ensures !StartsWith(b, "/") && (a == "" || EndsWith(a, "/")) ==> r == a + b
  {
    if StartsWith(b, "/") then b
    else if a == "" || EndsWith(a, "/") then a + b
    else a + "/" + b
  }

  /** Joining an entry onto a resolved directory gives a path the resolver no
      longer changes, so `list_files` checks exactly `join(root, entry)`. */
  lemma JoinOntoResolved(p: string, e: string)
    ensures WorkingDirectory(PathJoin(WorkingDirectory(p), e)) == PathJoin(WorkingDirectory(p), e)
  {
    var root := WorkingDirectory(p);
    var full := PathJoin(root, e);
    if !StartsWith(e, "/") {
      if StartsWith(root, "/") {
        assert full[..1] == root[..1];
      } else {
        assert full[..2] == root[..2];
      }
    }
  }

  /** `list_directories` joins entries onto the UNRESOLVED argument and lets
      `directory_exist` resolve afterwards; for any non-empty argument other
      than `~` this checks the same path as joining onto the resolved
      directory would. */
  lemma JoinThenResolve(p: string, e: string)
    requires |p| > 0 && p != "~"
    ensures WorkingDirectory(PathJoin(p, e)) == PathJoin(WorkingDirectory(p), e)
  {
    var full := PathJoin(p, e);
    if StartsWith(e, "/") {
      assert full == e;
    } else if IsAnchored(p) {
      if StartsWith(p, "/") {
        assert full[..1] == p[..1];
      } else {
        assert full[..2] == p[..2];
      }
    } else {
      assert full[0] == p[0];
      if p[0] == '~' {
        assert |p| >= 2 && full[1] == p[1];
      }
      assert !IsAnchored(full);
      HomeKeepsFinalSlash(p);
      if EndsWith(p, "/") {
        assert "~/" + full == ("~/" + p) + e;
      } else {
        assert "~/" + full == ("~/" + p) + "/" + e;
      }
    }
  }

  /** The argument `~` is the exception: `ls` runs in `~/~`, but joining an
      entry onto `~` gives `~/entry`, which the resolver keeps, so the entries
      are tested in the home directory instead. */
  lemma TildeArgumentMismatch(tilde: string, e: string)
    requires tilde == "~" && !StartsWith(e, "/")
    ensures WorkingDirectory(tilde) == "~/~"
    ensures WorkingDirectory(PathJoin(tilde, e)) == "~/" + e
    ensures PathJoin(WorkingDirectory(tilde), e) == "~/~/" + e
    ensures WorkingDirectory(PathJoin(tilde, e)) != PathJoin(WorkingDirectory(tilde), e)
  {
    assert tilde[0] == '~' && !StartsWith(tilde, "/") && !IsAnchored(tilde);
    assert "~/" + tilde == "~/~";
    assert PathJoin(tilde, e) == "~/" + e;
    assert ("~/" + e)[..2] == "~/";
    assert |"~/" + e| != |"~/~/" + e|;
  }

  /** Prefixing `~/` to a non-empty path keeps whether it ends in `/`. */
  lemma HomeKeepsFinalSlash(p: string)
    requires |p| > 0
    ensures EndsWith("~/" + p, "/") <==> EndsWith(p, "/")
  {
    assert ("~/" + p)[|p| + 1] == p[|p| - 1];
  }
}
