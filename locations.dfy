/**
 * Identifier and location-string handling of EasyEC2: the shape an AMI id must have, and the
 * bucket, key prefix and display name read off an image's manifest location
 * `bucket/name.manifest.xml`.
 */
module Locations {
  import opened Wrappers
  import opened PyStr

  const AmiPrefix: String := "ami"
  const AmiIdLength: nat := 12
  const ManifestSuffix: String := ".manifest.xml"

  /** The shape `get_registered_image` demands of an id before it looks at any image. */
  predicate ValidAmiId(id: String): (ok: bool)
    ensures ok <==> |id| == 12 && id[0] == 'a' && id[1] == 'm' && id[2] == 'i'
  {
    StartsWith(id, AmiPrefix) && |id| == AmiIdLength
  }

  /** `location.split('/')[0]`: the bucket that holds the image's files. */
  function BucketName(location: String): (bucket: String)
    ensures bucket <= location && '/' !in bucket
    ensures bucket == location || location[|bucket|] == '/'
  {
    HeadIsTextBeforeFirst(location, "/");
    ContainsChar(Head(location, "/"), '/');
    ContainsChar(location, '/');
    if Contains(location, "/") then
      CharOccursAt(location, '/', |Head(location, "/")|);
      Head(location, "/")
    else
      Head(location, "/")
  }

  /**
   * `os.path.basename(location).split('.manifest.xml')[0]`: the key prefix shared by the
   * image's files.
   */
  function KeyPrefix(location: String): (prefix: String)
    ensures prefix <= Basename(location)
    ensures '/' !in prefix && !Contains(prefix, ManifestSuffix)
    ensures !Contains(Basename(location), ManifestSuffix) ==> prefix == Basename(location)
    ensures Contains(Basename(location), ManifestSuffix) ==> OccursAt(Basename(location), ManifestSuffix, |prefix|)
  {
    HeadIsTextBeforeFirst(Basename(location), ManifestSuffix);
    var prefix := Head(Basename(location), ManifestSuffix);
    assert '/' !in prefix by {
      forall i | 0 <= i < |prefix| ensures prefix[i] != '/' {
        assert prefix[i] == Basename(location)[i];
      }
    }
    prefix
  }

  /** What occurs inside an occurrence of `t` occurs in `s`, shifted by where `t` sits. */
  lemma OccursWithin(s: String, t: String, start: nat, u: String, k: nat)
    requires OccursAt(s, t, start) && OccursAt(t, u, k)
    ensures OccursAt(s, u, start + k)
  {
    forall j | 0 <= j < |u| ensures s[start + k + j] == u[j] {
      assert u[j] == t[k..k + |u|][j] == t[k + j];
      assert t[k + j] == s[start..start + |t|][k + j];
    }
  }

  /** The bucket name ends at the first `/`, and the second part is split from what follows it. */
  lemma SecondPartAfterBucket(location: String)
    requires '/' in location
    ensures |BucketName(location)| < |location| && location[|BucketName(location)|] == '/'
    ensures |Split(location, "/")| >= 2
    ensures Split(location, "/")[1] == Head(location[|BucketName(location)| + 1..], "/")
  {
    ContainsChar(location, '/');
    FindIsFirst(location, "/");
    var i := Find(location, "/").value;
    SplitAtFirst(location, "/", i);
    assert BucketName(location) == location[..i];
  }

  /** The text of `rest` before its first `/` runs to the end of `rest` or to a `/`. */
  lemma HeadBeforeSlash(rest: String)
    ensures var seg := Head(rest, "/");
            && OccursAt(rest, seg, 0) && '/' !in seg
            && (|seg| == |rest| || rest[|seg|] == '/')
  {
    HeadIsTextBeforeFirst(rest, "/");
    var seg := Head(rest, "/");
    ContainsChar(seg, '/');
    ContainsChar(rest, '/');
    if Contains(rest, "/") {
      CharOccursAt(rest, '/', |seg|);
    }
  }

  /**
   * `location.split('/')[1]` is the text after the bucket's `/` up to the next `/` or the end.
   */
  lemma SecondSegment(location: String)
    requires '/' in location
    ensures |Split(location, "/")| >= 2
    ensures var start := |BucketName(location)| + 1;
            var seg := Split(location, "/")[1];
            && OccursAt(location, seg, start) && '/' !in seg
            && (start + |seg| == |location| || location[start + |seg|] == '/')
  {
    SecondPartAfterBucket(location);
    var start := |BucketName(location)| + 1;
    var rest := location[start..];
    HeadBeforeSlash(rest);
    var seg := Head(rest, "/");
    assert OccursAt(location, rest, start);
    OccursWithin(location, rest, start, seg, 0);
    if start + |seg| < |location| {
      assert location[start + |seg|] == rest[|seg|];
    }
  }

  /**
   * The text of a `/`-free segment before its first manifest suffix, placed in the location
   * the segment sits in.
   */
  lemma NameInSegment(location: String, seg: String, start: nat)
    requires OccursAt(location, seg, start) && '/' !in seg
    requires start + |seg| == |location| || location[start + |seg|] == '/'
    ensures var name := Head(seg, ManifestSuffix);
            var end := start + |name|;
            && OccursAt(location, name, start)
            && '/' !in name && !Contains(name, ManifestSuffix)
            && (end == |location| || location[end] == '/' || OccursAt(location, ManifestSuffix, end))
  {
    HeadIsTextBeforeFirst(seg, ManifestSuffix);
    var name := Head(seg, ManifestSuffix);
    assert OccursAt(seg, name, 0);
    OccursWithin(location, seg, start, name, 0);
    assert name == seg[..|name|];
    if Contains(seg, ManifestSuffix) {
      OccursWithin(location, seg, start, ManifestSuffix, |name|);
    }
  }

  /** The name `ImageName` returns, placed in its location. */
  lemma ImageNameAt(location: String)
    requires '/' in location
    ensures |Split(location, "/")| >= 2
    ensures var name := Head(Split(location, "/")[1], ManifestSuffix);
            var start := |BucketName(location)| + 1;
            var end := start + |name|;
            && OccursAt(location, name, start)
            && '/' !in name && !Contains(name, ManifestSuffix)
            && (end == |location| || location[end] == '/' || OccursAt(location, ManifestSuffix, end))
  {
    SecondSegment(location);
    NameInSegment(location, Split(location, "/")[1], |BucketName(location)| + 1);
  }

  /**
   * `location.split('/')[1].split('.manifest.xml')[0]`, the name `get_image_name` shows;
   * `None` where Python raises IndexError because the location has no `/`. The name is the
   * text after the bucket's `/` up to the next `/`, the end, or the first manifest suffix.
   */
  function ImageName(location: String): (name: Option<String>)
    ensures name.None? <==> '/' !in location
    ensures name.Some? ==>
              var start := |BucketName(location)| + 1;
              var end := start + |name.value|;
              && OccursAt(location, name.value, start)
              && '/' !in name.value && !Contains(name.value, ManifestSuffix)
              && (end == |location| || location[end] == '/' || OccursAt(location, ManifestSuffix, end))
  {
    ContainsChar(location, '/');
    FindIsFirst(location, "/");
    var parts := Split(location, "/");
    if |parts| < 2 then None
    else
      ImageNameAt(location);
      Some(Head(parts[1], ManifestSuffix))
  }

  /** The manifest suffix overlaps itself nowhere: no proper suffix of it is also a prefix. */
  lemma ManifestSuffixUnbordered(k: nat)
    requires 1 <= k < |ManifestSuffix|
    ensures ManifestSuffix[k..] != ManifestSuffix[..|ManifestSuffix| - k]
  {
    var m := ManifestSuffix;
    if k == 9 {
      assert m[k..][1] != m[..|m| - k][1];
    } else {
      assert m[k..][0] != m[..|m| - k][0];
    }
  }

  /** In `n + '.manifest.xml'` the suffix first occurs at `|n|` when `n` does not contain it. */
  lemma HeadBeforeManifest(n: String)
    requires !Contains(n, ManifestSuffix)
    ensures Head(n + ManifestSuffix, ManifestSuffix) == n
  {
    var m := ManifestSuffix;
    var s := n + m;
    assert OccursAt(s, m, |n|) by { assert s[|n|..|n| + |m|] == m; }
    forall j: nat | j < |n| ensures !OccursAt(s, m, j) {
      if OccursAt(s, m, j) {
        if j + |m| <= |n| {
          assert n[j..j + |m|] == s[j..j + |m|];
          assert OccursAt(n, m, j);
        } else {
          var k := |n| - j;
          assert m[k..] == m[..|m| - k] by {
            assert m[k..] == s[j..j + |m|][k..] == s[|n|..j + |m|];
            assert m[..|m| - k] == s[|n|..|n| + |m|][..|m| - k] == s[|n|..j + |m|];
          }
          ManifestSuffixUnbordered(k);
        }
      }
    }
    FindAt(s, m, |n|);
    assert Split(s, m)[0] == s[..|n|];
  }

  /** `'/' !in ManifestSuffix`, so a basename ending in it has no `/` either. */
  lemma NoSlashInSuffixedName(n: String)
    requires '/' !in n
    ensures '/' !in n + ManifestSuffix
  {
    var s := n + ManifestSuffix;
    forall i | 0 <= i < |s| ensures s[i] != '/' {
      if i >= |n| {
        assert s[i] == ManifestSuffix[i - |n|];
      }
    }
  }

  /** A path `B/R` with no `/` in `B` or `R` splits into `[B, R]` and has basename `R`. */
  lemma SplitAtOnlySlash(b: String, rest: String)
    requires '/' !in b && '/' !in rest
    ensures Split(b + "/" + rest, "/") == [b, rest]
    ensures Basename(b + "/" + rest) == rest
  {
    var loc := b + "/" + rest;
    CharOccursAt(loc, '/', |b|);
    forall j: nat | j < |b| ensures !OccursAt(loc, "/", j) {
      CharOccursAt(loc, '/', j);
      assert loc[j] == b[j];
    }
    FindAt(loc, "/", |b|);
    assert loc[|b| + 1..] == rest;
    ContainsChar(rest, '/');
    FindIsFirst(rest, "/");
    assert Split(rest, "/") == [rest];
    assert loc[..|b|] == b;
    assert IsBasename(loc, rest) by {
      assert loc[|loc| - |rest|..] == rest;
      assert loc[|loc| - |rest| - 1] == '/';
    }
    BasenameUnique(loc, rest, Basename(loc));
  }

  /**
   * For a location `B/N.manifest.xml` with no `/` in `B` or `N`, and no manifest suffix inside
   * `N`, the bucket is `B`, the key prefix is `N` and the displayed name is `N` too.
   */
  lemma WellFormedLocation(b: String, n: String)
    requires '/' !in b && '/' !in n && !Contains(n, ManifestSuffix)
    ensures BucketName(b + "/" + n + ManifestSuffix) == b
    ensures KeyPrefix(b + "/" + n + ManifestSuffix) == n
    ensures ImageName(b + "/" + n + ManifestSuffix) == Some(n)
  {
    var rest := n + ManifestSuffix;
    assert b + "/" + rest == b + "/" + n + ManifestSuffix;
    NoSlashInSuffixedName(n);
    HeadBeforeManifest(n);
    SplitAtOnlySlash(b, rest);
  }

  /**
   * When the location has exactly one `/`, the name `get_image_name` shows is the key prefix
   * `get_image_files` lists by.
   */
  lemma NameIsKeyPrefix(location: String)
    requires |Split(location, "/")| == 2
    ensures ImageName(location) == Some(KeyPrefix(location))
  {
    BasenameIsLastPart(location);
  }
}
