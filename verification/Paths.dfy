/** hasPathPrefix of pkg/state/gateway.go, against the element-wise reading of a
    path as its segments between slashes. */
module Paths {
  import opened Common

  predicate HasPathPrefix(path: string, prefix: string) {
    if prefix == "/" then true
    else if path == prefix then true
    else if |path| > |prefix| && path[|prefix|] == '/' && path[..|prefix|] == prefix then true
    else if |prefix| > 0 && prefix[|prefix| - 1] == '/' && |path| >= |prefix| && path[..|prefix|] == prefix then true
    else false
  }

  predicate IsRequestPath(path: string) {
    HasPrefix(path, "/")
  }

  // ----- segments

  /** strings.Split(s, "/"). */
  function Split(s: string): (r: seq<string>)
    ensures |r| >= 1
  {
    if s == "" then [""]
    else
      var r := Split(s[1..]);
      if s[0] == '/' then [""] + r else [[s[0]] + r[0]] + r[1..]
  }

  function Join(segments: seq<string>): string {
    if segments == [] then ""
    else if |segments| == 1 then segments[0]
    else segments[0] + "/" + Join(segments[1..])
  }

  lemma JoinSegment(r: seq<string>)
    requires |r| >= 1
    ensures Join([""] + r) == "/" + Join(r)
  {
    assert ([""] + r)[1..] == r;
  }

  lemma Prepend(c: string, a: string, b: string)
    ensures (c + a) + "/" + b == c + (a + "/" + b)
  {
  }

  lemma JoinLetter(c: string, r: seq<string>)
    requires |r| >= 1
    ensures Join([c + r[0]] + r[1..]) == c + Join(r)
  {
    var t := [c + r[0]] + r[1..];
    assert t[0] == c + r[0] && t[1..] == r[1..];
    if |r| > 1 {
      Prepend(c, r[0], Join(r[1..]));
    }
  }

  /** Split is the inverse of joining, and its segments hold no slash. */
  lemma {:induction false} JoinSplit(s: string)
    ensures Join(Split(s)) == s
    ensures forall i :: 0 <= i < |Split(s)| ==> '/' !in Split(s)[i]
  {
    if s == "" {
    } else {
      JoinSplit(s[1..]);
      var r := Split(s[1..]);
      assert s == [s[0]] + s[1..];
      if s[0] == '/' {
        JoinSegment(r);
      } else {
        JoinLetter([s[0]], r);
      }
    }
  }

  /** Concatenates two segment lists, gluing the segments that meet. */
  function Glue(sa: seq<string>, sb: seq<string>): (r: seq<string>)
    requires |sa| >= 1 && |sb| >= 1
    ensures |r| == |sa| + |sb| - 1
  {
    sa[..|sa| - 1] + [sa[|sa| - 1] + sb[0]] + sb[1..]
  }

  lemma GlueSegment(r: seq<string>, sb: seq<string>)
    requires |r| >= 1 && |sb| >= 1
    ensures Glue([""] + r, sb) == [""] + Glue(r, sb)
  {
  }

  lemma GlueLetter(c: string, r: seq<string>, sb: seq<string>)
    requires |r| >= 1 && |sb| >= 1
    ensures Glue([c + r[0]] + r[1..], sb) == [c + Glue(r, sb)[0]] + Glue(r, sb)[1..]
  {
    if |r| == 1 {
      assert c + r[0] + sb[0] == c + (r[0] + sb[0]);
    }
  }

  lemma {:induction false} SplitAppend(a: string, b: string)
    ensures Split(a + b) == Glue(Split(a), Split(b))
  {
    if a == "" {
      assert a + b == b;
      assert "" + Split(b)[0] == Split(b)[0];
    } else {
      SplitAppend(a[1..], b);
      assert (a + b)[1..] == a[1..] + b;
      if a[0] == '/' {
        GlueSegment(Split(a[1..]), Split(b));
      } else {
        GlueLetter([a[0]], Split(a[1..]), Split(b));
      }
    }
  }

  lemma SplitTrailingSlash(a: string)
    ensures Split(a + "/") == Split(a) + [""]
  {
    var sa := Split(a);
    assert "/"[1..] == "";
    assert Split("/") == ["", ""];
    SplitAppend(a, "/");
    assert sa[|sa| - 1] + "" == sa[|sa| - 1];
  }

  lemma GlueEmpty(sa: seq<string>, sb: seq<string>)
    requires |sb| >= 1
    ensures Glue(sa + [""], sb) == sa + sb
  {
    assert "" + sb[0] == sb[0];
    assert sb == [sb[0]] + sb[1..];
    assert (sa + [""])[..|sa|] == sa;
  }

  lemma SplitAppendSlash(a: string, b: string)
    ensures Split(a + "/" + b) == Split(a) + Split(b)
  {
    SplitTrailingSlash(a);
    SplitAppend(a + "/", b);
    GlueEmpty(Split(a), Split(b));
  }

  /** One path's segments begin another's exactly when it is that path or is
      followed there by a slash. */
  lemma {:induction false} SegmentPrefix(path: string, prefix: string)
    ensures Split(prefix) <= Split(path) <==> path == prefix || prefix + "/" <= path
  {
    if prefix == "" {
      assert prefix + "/" == "/";
    } else if path == "" {
      assert Split(prefix)[0] != "" || |Split(prefix)| > 1;
    } else {
      var p, q := Split(prefix[1..]), Split(path[1..]);
      SegmentPrefix(path[1..], prefix[1..]);
      assert prefix == [prefix[0]] + prefix[1..] && path == [path[0]] + path[1..];
      assert (prefix + "/")[1..] == prefix[1..] + "/";
      if prefix[0] == path[0] {
        assert (path == prefix || prefix + "/" <= path) <==>
               (path[1..] == prefix[1..] || prefix[1..] + "/" <= path[1..]);
        if prefix[0] == '/' {
          assert ([""] + p <= [""] + q) <==> p <= q by {
            assert ([""] + p)[1..] == p && ([""] + q)[1..] == q;
          }
        } else {
          GluedPrefix([prefix[0]], p, q);
        }
      } else if prefix[0] != '/' && path[0] != '/' {
        assert Split(prefix)[0][0] == prefix[0] && Split(path)[0][0] == path[0];
      }
    }
  }

  lemma GluedPrefix(c: string, p: seq<string>, q: seq<string>)
    requires |p| >= 1 && |q| >= 1
    ensures [c + p[0]] + p[1..] <= [c + q[0]] + q[1..] <==> p <= q
  {
    var p', q' := [c + p[0]] + p[1..], [c + q[0]] + q[1..];
    assert p == [p[0]] + p[1..] && q == [q[0]] + q[1..];
    assert (c + p[0])[|c|..] == p[0] && (c + q[0])[|c|..] == q[0];
    if p' <= q' {
      assert p'[0] == q'[0];
      assert forall i :: 1 <= i < |p| ==> p[i] == p'[i] == q'[i] == q[i];
    }
  }

  /** The prefix test is the element-wise one for every prefix without a trailing
      slash, accepts everything for `/`, and is a plain string prefix otherwise. */
  lemma HasPathPrefixMeaning(path: string, prefix: string)
    ensures HasPathPrefix(path, prefix) <==>
            if prefix == "/" then true
            else if EndsWithSlash(prefix) then prefix <= path
            else Split(prefix) <= Split(path)
  {
    SegmentPrefix(path, prefix);
    if |path| > |prefix| && path[|prefix|] == '/' && path[..|prefix|] == prefix {
      assert path[..|prefix| + 1] == prefix + "/";
    }
    if prefix + "/" <= path {
      assert path[|prefix|] == '/' && path[..|prefix|] == prefix;
    }
  }

  /** For a non-empty prefix without a trailing slash, adding the slash excludes the
      prefix itself and nothing else. */
  lemma TrailingSlashExcludesOnlyItself(path: string, q: string)
    requires q != "" && !EndsWithSlash(q)
    ensures HasPathPrefix(path, q + "/") <==> HasPathPrefix(path, q) && path != q
  {
  }

  function TrimSlash(s: string): string {
    if EndsWithSlash(s) then s[..|s| - 1] else s
  }

  /** The element-wise test that ignores one trailing slash of the prefix agrees with
      the code except when the path is a longer prefix minus its trailing slash. */
  lemma IgnoresTrailingSlashExcept(path: string, prefix: string)
    requires IsRequestPath(path)
    ensures (HasPathPrefix(path, prefix) <==> Split(TrimSlash(prefix)) <= Split(path)) <==>
            !(EndsWithSlash(prefix) && prefix != "/" && path == TrimSlash(prefix))
  {
    HasPathPrefixMeaning(path, prefix);
    SegmentPrefix(path, TrimSlash(prefix));
    if EndsWithSlash(prefix) {
      assert TrimSlash(prefix) + "/" == prefix;
    }
  }

  // ----- the prefixes of one request path

  lemma PrefixReflexive(a: string)
    ensures HasPathPrefix(a, a)
  {
  }

  lemma PrefixTransitive(a: string, b: string, c: string)
    requires IsRequestPath(a) && HasPathPrefix(a, b) && HasPathPrefix(b, c)
    ensures HasPathPrefix(a, c)
  {
  }

  lemma AcceptedIsStringPrefix(path: string, prefix: string)
    requires IsRequestPath(path) && HasPathPrefix(path, prefix)
    ensures prefix <= path
    ensures |path| > |prefix| && !EndsWithSlash(prefix) ==> path[|prefix|] == '/'
  {
  }

  lemma PrefixAntisymmetric(a: string, b: string)
    requires IsRequestPath(a) && IsRequestPath(b) && HasPathPrefix(a, b) && HasPathPrefix(b, a)
    ensures a == b
  {
  }

  /** The prefixes accepting one request path form a chain: the longer one accepts
      only paths the shorter one accepts. */
  lemma LongerPrefixIsNarrower(path: string, long: string, short: string, other: string)
    requires IsRequestPath(path) && IsRequestPath(other)
    requires HasPathPrefix(path, long) && HasPathPrefix(path, short) && |short| <= |long|
    requires HasPathPrefix(other, long)
    ensures HasPathPrefix(other, short)
  {
  }
}
