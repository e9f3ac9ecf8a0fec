/**
 * The string handling of the configuration-driven JePiAlert: the
 * comma-separated job list (Guava's `Splitter.on(',').trimResults()
 * .omitEmptyStrings()`), the credential prefix of the host, and `getPath`,
 * the directory of the running jar.
 */
module Config {
  import opened Nullable

  // ---------------------------------------------------------------- trimming

  /** Guava's `CharMatcher.whitespace()`, the matcher `trimResults()` uses. */
  predicate IsWhitespace(c: char) {
    || c == '\t' || c == '\n' || c == '\U{000B}' || c == '\U{000C}' || c == '\r'
    || c == ' ' || c == '\U{0085}' || c == '\U{00A0}' || c == '\U{1680}'
    || ('\U{2000}' <= c <= '\U{200A}')
    || c == '\U{2028}' || c == '\U{2029}' || c == '\U{202F}' || c == '\U{205F}'
    || c == '\U{3000}'
  }

  /** Neither the first nor the last character is whitespace. */
  predicate IsTrimmed(s: string) {
    s == [] || (!IsWhitespace(s[0]) && !IsWhitespace(s[|s| - 1]))
  }

  /** `s` with its leading whitespace removed. */
  function TrimStart(s: string): (r: string)
    ensures |r| <= |s| && r == s[|s| - |r|..]
    ensures r == [] || !IsWhitespace(r[0])
    ensures forall k :: 0 <= k < |s| - |r| ==> IsWhitespace(s[k])
    ensures forall c :: c in r ==> c in s
  {
    if s != [] && IsWhitespace(s[0]) then TrimStart(s[1..]) else s
  }

  /** `s` with its trailing whitespace removed. */
  function TrimEnd(s: string): (r: string)
    ensures |r| <= |s| && r == s[..|r|]
    ensures r == [] || !IsWhitespace(r[|r| - 1])
    ensures forall k :: |r| <= k < |s| ==> IsWhitespace(s[k])
    ensures forall c :: c in r ==> c in s
  {
    if s != [] && IsWhitespace(s[|s| - 1]) then TrimEnd(s[..|s| - 1]) else s
  }

  /** `r` is the slice `s[i..i + |r|]` with only whitespace before and after it. */
  predicate MiddleOf(s: string, r: string, i: int) {
    && 0 <= i && i + |r| <= |s| && r == s[i..i + |r|]
    && (forall k :: 0 <= k < i ==> IsWhitespace(s[k]))
    && (forall k :: i + |r| <= k < |s| ==> IsWhitespace(s[k]))
  }

  /** `CharMatcher.whitespace().trimFrom(s)`: the middle of `s` left after
      removing its leading and trailing whitespace. */
  function Trim(s: string): (r: string)
    ensures exists i :: MiddleOf(s, r, i)
    ensures IsTrimmed(r)
    ensures forall c :: c in r ==> c in s
    ensures r == [] <==> forall k :: 0 <= k < |s| ==> IsWhitespace(s[k])
    ensures IsTrimmed(s) ==> r == s
  {
    TrimFacts(s);
    TrimIsMiddle(s);
    TrimEnd(TrimStart(s))
  }

  lemma TrimIsMiddle(s: string)
    ensures MiddleOf(s, TrimEnd(TrimStart(s)), |s| - |TrimStart(s)|)
  {
    var t := TrimStart(s);
    SliceOfSlice(s, t, TrimEnd(t), |s| - |t|);
  }

  /** A prefix of a suffix, each cut off at whitespace, is a middle slice. */
  lemma SliceOfSlice(s: string, t: string, r: string, i: int)
    requires 0 <= i <= |s| && t == s[i..] && |r| <= |t| && r == t[..|r|]
    requires forall k :: 0 <= k < i ==> IsWhitespace(s[k])
    requires forall k :: |r| <= k < |t| ==> IsWhitespace(t[k])
    ensures MiddleOf(s, r, i)
  {
    assert r == s[i..i + |r|];
    forall k | i + |r| <= k < |s| ensures IsWhitespace(s[k]) {
      assert s[k] == t[k - i];
    }
  }

  lemma TrimFacts(s: string)
    ensures TrimEnd(TrimStart(s)) == [] <==> forall k :: 0 <= k < |s| ==> IsWhitespace(s[k])
  {
    var t := TrimStart(s);
    if t != [] {
      assert !IsWhitespace(t[0]) && t[0] == s[|s| - |t|];
      assert TrimEnd(t) != [];
    }
  }

  // --------------------------------------------------------------- splitting

  /** `Splitter.on(',')` before trimming and omitting: the pieces between
      the commas, empty ones included. */
  function Pieces(s: string): (r: seq<string>)
    ensures |r| >= 1
    ensures forall k :: 0 <= k < |r| ==> ',' !in r[k]
  {
    if s == [] then [[]]
    else
      var rest := Pieces(s[1..]);
      if s[0] == ',' then [[]] + rest
      else [[s[0]] + rest[0]] + rest[1..]
  }

  /** The pieces joined with `sep` between neighbours. */
  function Join(parts: seq<string>, sep: char): (r: string) {
    if |parts| == 0 then []
    else if |parts| == 1 then parts[0]
    else parts[0] + [sep] + Join(parts[1..], sep)
  }

  /** Splitting loses nothing: joining the pieces with commas gives the input back. */
  lemma {:induction false} JoinPieces(s: string)
    ensures Join(Pieces(s), ',') == s
  {
    if s != [] {
      JoinPieces(s[1..]);
      var rest := Pieces(s[1..]);
      if s[0] != ',' && |rest| > 1 {
        assert Join(rest, ',') == rest[0] + [','] + Join(rest[1..], ',');
      }
    }
  }

  lemma {:induction false} PiecesOfPrefixed(c: char, tail: string)
    requires c != ','
    ensures Pieces([c] + tail) == [[c] + Pieces(tail)[0]] + Pieces(tail)[1..]
  {
    assert ([c] + tail)[1..] == tail;
  }

  lemma {:induction false} PiecesOfAppend(p: string, tail: string)
    requires ',' !in p
    ensures Pieces(p + tail) == [p + Pieces(tail)[0]] + Pieces(tail)[1..]
  {
    if p == [] {
      assert p + tail == tail;
      assert p + Pieces(tail)[0] == Pieces(tail)[0];
      assert [p + Pieces(tail)[0]] + Pieces(tail)[1..] == Pieces(tail);
    } else {
      assert p + tail == [p[0]] + (p[1..] + tail);
      PiecesOfAppend(p[1..], tail);
      PiecesOfPrefixed(p[0], p[1..] + tail);
      assert [p[0]] + (p[1..] + Pieces(tail)[0]) == p + Pieces(tail)[0];
    }
  }

  /** Splitting undoes joining with commas when no part holds a comma. */
  lemma {:induction false} PiecesOfJoin(parts: seq<string>)
    requires |parts| >= 1
    requires forall k :: 0 <= k < |parts| ==> ',' !in parts[k]
    ensures Pieces(Join(parts, ',')) == parts
  {
    if |parts| == 1 {
      PiecesOfAppend(parts[0], []);
      assert parts[0] + [] == parts[0];
      assert Pieces([]) == [[]];
      assert Join(parts, ',') == parts[0];
    } else {
      var tail := [','] + Join(parts[1..], ',');
      assert Join(parts, ',') == parts[0] + tail;
      PiecesOfJoin(parts[1..]);
      PiecesOfAppend(parts[0], tail);
      assert tail[1..] == Join(parts[1..], ',');
      assert Pieces(tail) == [[]] + parts[1..];
      assert parts[0] + Pieces(tail)[0] == parts[0];
      assert [parts[0]] + parts[1..] == parts;
    }
  }

  /** Trims every piece and omits those that end up empty, keeping the order. */
  function Clean(pieces: seq<string>): (r: seq<string>)
    ensures |r| <= |pieces|
    ensures forall k :: 0 <= k < |r| ==> r[k] != [] && IsTrimmed(r[k])
  {
    if pieces == [] then []
    else
      var t := Trim(pieces[0]);
      if t == [] then Clean(pieces[1..]) else [t] + Clean(pieces[1..])
  }

  /** A string is kept exactly when it is non-empty and the trim of some piece. */
  lemma {:induction false} CleanKeepsExactlyTrimmedPieces(pieces: seq<string>, x: string)
    ensures x in Clean(pieces) <==> x != [] && exists p :: p in pieces && Trim(p) == x
  {
    if pieces != [] {
      CleanKeepsExactlyTrimmedPieces(pieces[1..], x);
      assert forall p :: p in pieces <==> p == pieces[0] || p in pieces[1..];
    }
  }

  /** Cleaning works piece by piece: the kept names of a list are those of its
      first part followed by those of the rest, in order and with repeats. */
  lemma {:induction false} CleanAppend(a: seq<string>, b: seq<string>)
    ensures Clean(a + b) == Clean(a) + Clean(b)
  {
    if a == [] {
      assert a + b == b;
    } else {
      assert (a + b)[0] == a[0];
      assert (a + b)[1..] == a[1..] + b;
      CleanAppend(a[1..], b);
      var t := Trim(a[0]);
      if t != [] {
        assert Clean(a + b) == [t] + (Clean(a[1..]) + Clean(b));
        assert [t] + (Clean(a[1..]) + Clean(b)) == ([t] + Clean(a[1..])) + Clean(b);
      }
    }
  }

  /** One piece yields its trim, or nothing when that is empty. */
  lemma CleanOne(p: string)
    ensures Clean([p]) == (if Trim(p) == [] then [] else [Trim(p)])
  {
    assert [p][1..] == [];
  }

  /** Reading comma-free pieces joined with commas trims each piece in place
      and drops the blank ones: ` job1 , ,job2` gives `job1`, `job2`. */
  lemma SplitJobsOfPieces(parts: seq<string>)
    requires |parts| >= 1
    requires forall k :: 0 <= k < |parts| ==> ',' !in parts[k]
    ensures SplitJobs(Join(parts, ',')) == Clean(parts)
  {
    PiecesOfJoin(parts);
  }

  /** `Splitter.on(',').trimResults().omitEmptyStrings().split(s)`. */
  function SplitJobs(s: string): (r: seq<string>)
    ensures forall k :: 0 <= k < |r| ==> r[k] != [] && IsTrimmed(r[k]) && ',' !in r[k]
  {
    var ps := Pieces(s);
    var r := Clean(ps);
    forall k | 0 <= k < |r| ensures ',' !in r[k] {
      CleanKeepsExactlyTrimmedPieces(ps, r[k]);
      var p :| p in ps && Trim(p) == r[k];
    }
    r
  }

  /** A job name the property can carry: non-empty, trimmed, without a comma. */
  predicate IsJobName(name: string) {
    name != [] && IsTrimmed(name) && ',' !in name
  }

  lemma {:induction false} CleanKeepsNames(names: seq<string>)
    requires forall k :: 0 <= k < |names| ==> IsJobName(names[k])
    ensures Clean(names) == names
  {
    if names != [] {
      CleanKeepsNames(names[1..]);
    }
  }

  /** Round trip: the configured list written as `a,b,c` is read back as the
      same names in the same order. */
  lemma {:induction false} SplitJobsOfJoin(names: seq<string>)
    requires forall k :: 0 <= k < |names| ==> IsJobName(names[k])
    ensures SplitJobs(Join(names, ',')) == names
  {
    var joined := Join(names, ',');
    if names == [] {
      assert joined == [];
      assert Pieces(joined) == [[]];
      assert Trim([]) == [];
      assert Clean([[]]) == Clean([]) == [];
    } else {
      PiecesOfJoin(names);
      CleanKeepsNames(names);
      assert Clean(Pieces(joined)) == names;
    }
  }


  /** `jenkins.jobs`: a missing or empty property leaves the list empty,
      otherwise it is split. */
  function JobsFromProperty(jobs: Option<string>): (r: seq<string>)
    ensures jobs.None? ==> r == []
    ensures jobs.Some? ==> r == SplitJobs(jobs.value)
  {
    if jobs.Some? && jobs.value != [] then SplitJobs(jobs.value) else []
  }

  // ------------------------------------------------------------- credentials

  /** The host after the credential step: with a non-null, non-empty user the
      text `user:password@` is put in front of the host as written. */
  function HostWithCredentials(host: Option<string>, user: Option<string>, password: Option<string>)
    : (r: Option<string>)
    ensures user.None? || user == Some([]) ==> r == host
    ensures user.Some? && user.value != [] ==>
      r.Some? && r.value == user.value + ":" + JavaText(password) + "@" + JavaText(host)
  {
    if user.Some? && user.value != [] then
      Some(user.value + ":" + JavaText(password) + "@" + JavaText(host))
    else host
  }

  /** The index of the first `c` in `s`, or |s| when there is none. */
  function IndexOf(s: string, c: char): (r: nat)
    ensures r <= |s|
    ensures r < |s| ==> s[r] == c
    ensures forall k :: 0 <= k < r ==> s[k] != c
  {
    if s == [] || s[0] == c then 0 else 1 + IndexOf(s[1..], c)
  }

  /** The prefix is readable back: when neither the user holds ':' or '@' nor the
      password '@', the user is the text before the first ':', the password
      runs to the first '@' after it, and the rest is the host text. */
  lemma CredentialsRecoverable(host: Option<string>, user: string, password: string)
    requires user != [] && ':' !in user && '@' !in user && '@' !in password
    ensures var t := HostWithCredentials(host, Some(user), Some(password)).value;
            var i := IndexOf(t, ':');
            && i < |t| && t[..i] == user
            && var rest := t[i + 1..];
               var j := IndexOf(rest, '@');
               j < |rest| && rest[..j] == password && rest[j + 1..] == JavaText(host)
  {
    var t := HostWithCredentials(host, Some(user), Some(password)).value;
    var rest := password + "@" + JavaText(host);
    assert t == user + [':'] + rest;
    IndexOfSeparator(user, ':', rest);
    assert t[|user| + 1..] == rest;
    IndexOfSeparator(password, '@', JavaText(host));
  }

  /** The first `c` in `a + [c] + b` is the one after `a` when `a` has none. */
  lemma IndexOfSeparator(a: string, c: char, b: string)
    requires c !in a
    ensures var t := a + [c] + b;
      IndexOf(t, c) == |a| && t[..|a|] == a && t[|a| + 1..] == b
  {
    var t := a + [c] + b;
    assert t[|a|] == c;
    assert forall k :: 0 <= k < |a| ==> t[k] == a[k];
    assert t[..|a|] == a;
    assert t[|a| + 1..] == b;
  }

  // ------------------------------------------------------------------- paths

  /** `s.lastIndexOf(c)`: -1 when `c` does not occur. */
  function LastIndexOf(s: string, c: char): (r: int)
    ensures -1 <= r < |s|
    ensures r >= 0 ==> s[r] == c
    ensures forall k :: r < k < |s| ==> s[k] != c
  {
    if s == [] then -1
    else if s[|s| - 1] == c then |s| - 1
    else LastIndexOf(s[..|s| - 1], c)
  }

  /** `getPath()` on the decoded location of the jar: the text before its last
      '/'. Without a '/', `substring(0, -1)` throws (None). */
  function GetPath(decoded: string): (r: Option<string>)
    ensures r.None? <==> '/' !in decoded
    ensures r.Some? ==> var n := |r.value|;
      n < |decoded| && decoded[..n] == r.value && decoded[n] == '/' && '/' !in decoded[n + 1..]
  {
    LastIndexOfFinds(decoded, '/');
    var i := LastIndexOf(decoded, '/');
    if i < 0 then None else Some(decoded[..i])
  }

  lemma LastIndexOfFinds(s: string, c: char)
    ensures LastIndexOf(s, c) >= 0 <==> c in s
  {
    if c in s {
      var k :| 0 <= k < |s| && s[k] == c;
      assert k <= LastIndexOf(s, c);
    }
  }

  /** getPath gives `p` exactly when the location is `p`, a '/' and a last
      segment without '/'. */
  lemma GetPathSplitsAtLastSlash(decoded: string, p: string)
    ensures GetPath(decoded) == Some(p) <==>
      exists name :: '/' !in name && decoded == p + "/" + name
  {
    var i := LastIndexOf(decoded, '/');
    if GetPath(decoded) == Some(p) {
      var name := decoded[i + 1..];
      assert decoded == p + "/" + name;
      assert forall k :: 0 <= k < |name| ==> name[k] == decoded[i + 1 + k];
    }
    if exists name :: '/' !in name && decoded == p + "/" + name {
      var name :| '/' !in name && decoded == p + "/" + name;
      assert decoded[|p|] == '/';
      assert forall k :: |p| < k < |decoded| ==> decoded[k] == name[k - |p| - 1];
      assert i == |p|;
      assert decoded[..i] == p;
    }
  }

  /** Where the properties file is read from: `conf/jepialert.properties` in
      the jar's directory; no file is opened when getPath throws. */
  function PropertiesFile(decoded: string): (r: Option<string>)
    ensures r.None? <==> '/' !in decoded
  {
    match GetPath(decoded)
    case None => None
    case Some(p) => Some(p + "/conf/jepialert.properties")
  }

  /** The file sits next to the jar: for a jar at `p/name` it is
      `p/conf/jepialert.properties`, whatever directories `p` holds. */
  lemma PropertiesFileNextToJar(p: string, name: string)
    requires '/' !in name
    ensures PropertiesFile(p + "/" + name) == Some(p + "/conf/jepialert.properties")
  {
    GetPathSplitsAtLastSlash(p + "/" + name, p);
  }
}
