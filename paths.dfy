/**
 * The path-string operations the listing code relies on, for POSIX paths:
 * `os.path.join`, the final component `Path(p).name`, and lower-casing.
 */
module Paths {

  const Sep: char := '/'

  /** `os.path.join(root, name)`: an absolute `name` replaces `root`. */
  function Join(root: string, name: string): (r: string)
    ensures |name| <= |r| <= |root| + 1 + |name|
  {
    if name != [] && name[0] == Sep then name
    else if root == [] || root[|root| - 1] == Sep then root + name
    else root + [Sep] + name
  }

  /** The joined path ends with `name`, and starts with `root` unless `name` is absolute. */
  lemma JoinShape(root: string, name: string)
    ensures var r := Join(root, name);
            && r[|r| - |name|..] == name
            && (!(name != [] && name[0] == Sep) ==> r[..|root|] == root)
  {
  }

  /** The text after the last separator. */
  function BaseName(p: string): (r: string)
    ensures Sep !in r
    ensures |r| <= |p| && r == p[|p| - |r|..]
  {
    if p == [] || p[|p| - 1] == Sep then []
    else BaseName(p[..|p| - 1]) + [p[|p| - 1]]
  }

  lemma BaseNameSnoc(p: string, c: char)
    requires c != Sep
    ensures BaseName(p + [c]) == BaseName(p) + [c]
  {
    assert (p + [c])[..|p|] == p;
  }

  lemma {:induction false} BaseNameAfterSep(prefix: string, name: string)
    requires prefix == [] || prefix[|prefix| - 1] == Sep
    requires Sep !in name
    ensures BaseName(prefix + name) == name
    decreases |name|
  {
    if name == [] {
      assert prefix + name == prefix;
    } else {
      var n', c := name[..|name| - 1], name[|name| - 1];
      assert name == n' + [c];
      assert prefix + name == (prefix + n') + [c];
      assert Sep !in n' by {
        forall k | 0 <= k < |n'| ensures n'[k] != Sep { assert n'[k] == name[k]; }
      }
      BaseNameAfterSep(prefix, n');
      BaseNameSnoc(prefix + n', c);
    }
  }

  /** The walked file names contain no separator, so joining and taking the name round-trips. */
  lemma BaseNameOfJoin(root: string, name: string)
    requires name != [] && Sep !in name
    ensures BaseName(Join(root, name)) == name
  {
    if root == [] || root[|root| - 1] == Sep {
      BaseNameAfterSep(root, name);
    } else {
      assert root + [Sep] + name == (root + [Sep]) + name;
      BaseNameAfterSep(root + [Sep], name);
    }
  }

  function LowerChar(c: char): char
  {
    if 'A' <= c <= 'Z' then (c as int - 'A' as int + 'a' as int) as char else c
  }

  /** `a.lower() == b.lower()`, letter by letter (ASCII letters only). */
  function SameIgnoringCase(a: string, b: string): (r: bool)
    ensures r ==> |a| == |b|
  {
    if a == [] || b == [] then a == b
    else LowerChar(a[0]) == LowerChar(b[0]) && SameIgnoringCase(a[1..], b[1..])
  }

  /** Two strings match exactly when they have one length and agree letter by letter after lower-casing. */
  lemma {:induction false} SameIgnoringCaseLetterwise(a: string, b: string)
    ensures SameIgnoringCase(a, b) <==>
              |a| == |b| && forall i :: 0 <= i < |a| ==> LowerChar(a[i]) == LowerChar(b[i])
    decreases |a|
  {
    if a != [] && b != [] {
      SameIgnoringCaseLetterwise(a[1..], b[1..]);
      if |a| == |b| && LowerChar(a[0]) == LowerChar(b[0]) && SameIgnoringCase(a[1..], b[1..]) {
        forall i | 0 <= i < |a| ensures LowerChar(a[i]) == LowerChar(b[i]) {
          if i > 0 { assert a[1..][i - 1] == a[i] && b[1..][i - 1] == b[i]; }
        }
      }
      if |a| == |b| && forall i :: 0 <= i < |a| ==> LowerChar(a[i]) == LowerChar(b[i]) {
        forall i | 0 <= i < |a[1..]| ensures LowerChar(a[1..][i]) == LowerChar(b[1..][i]) {
          assert a[1..][i] == a[i + 1] && b[1..][i] == b[i + 1];
        }
      }
    }
  }

  /** Every name matches itself. */
  lemma {:induction false} SameIgnoringCaseReflexive(a: string)
    ensures SameIgnoringCase(a, a)
    decreases |a|
  {
    if a != [] {
      SameIgnoringCaseReflexive(a[1..]);
    }
  }
}
