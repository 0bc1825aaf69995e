/**
 * EasyEC2: the memoised registered-image listing, image lookups, instance listing, and the
 * image-deletion protocol `remove_image_files` / `remove_image`.
 */
module Ec2 {
  import opened Wrappers
  import opened Collections
  import opened PyStr
  import opened Locations
  import opened Resources
  import opened Storage
  import opened Aws
  import opened Remote

  /** The exceptions the modelled operations raise. */
  datatype Error =
    | InvalidAmiId(id: String)      // TypeError from get_registered_image
    | NoImage(id: String)           // AttributeError: get_image_files on an id get_image cannot find
    | NoSuchBucket(bucket: String)  // S3ResponseError from get_bucket
    | UndefinedName(name: String)   // NameError

  /** How a deletion call ends: it returns, it logs that the image is missing and returns, or it raises. */
  datatype Outcome = Finished | ImageNotFound | Raised(error: Error)

  /** The steps of the deletion protocol, in the order they happen. */
  datatype Action =
    | Deleted(obj: StorageObject)
    | WouldDelete(obj: StorageObject)
    | Deregistered(id: String)
    | WouldDeregister(id: String)

  /** Where an image's files are: the bucket and the key prefix read off its location. */
  datatype Target = Target(bucket: String, prefix: String)

  function Locate(im: Image): Target {
    Target(BucketName(im.location), KeyPrefix(im.location))
  }

  /** Where the files of the image `id` are, if the registry has it. */
  function TargetOf(images: seq<Image>, id: String): Option<Target> {
    match Lookup(images, id)
    case None => None
    case Some(im) => Some(Locate(im))
  }

  /**
   * `get_image_files(id)`: the key objects in the image's bucket under its prefix; fails when
   * the image is missing or its bucket does not exist.
   */
  function ImageFiles(images: seq<Image>, buckets: map<String, Bucket>, id: String): (r: Result<seq<StorageObject>, Error>)
    ensures TargetOf(images, id).None? ==> r == Failure(NoImage(id))
    ensures TargetOf(images, id).Some? && TargetOf(images, id).value.bucket !in buckets ==>
              r == Failure(NoSuchBucket(TargetOf(images, id).value.bucket))
    ensures r.Success? ==>
              var t := TargetOf(images, id).value;
              && t.bucket in buckets
              && forall o :: o in r.value <==> o.bucket == t.bucket && o.name in buckets[t.bucket].keys && StartsWith(o.name, t.prefix)
  {
    match TargetOf(images, id)
    case None => Failure(NoImage(id))
    case Some(t) =>
      if t.bucket in buckets then
        var keys := Listing(buckets[t.bucket], t.prefix);
        ObjectsMembers(t.bucket, keys);
        Success(Objects(t.bucket, keys))
      else Failure(NoSuchBucket(t.bucket))
  }

  function Step(obj: StorageObject, pretend: bool): Action {
    if pretend then WouldDelete(obj) else Deleted(obj)
  }

  /** What one pass over the listed files does: print each one, or delete each one. */
  function FileSteps(files: seq<StorageObject>, pretend: bool): (r: seq<Action>)
    ensures |r| == |files|
    ensures forall i :: 0 <= i < |r| ==> r[i] == Step(files[i], pretend)
  {
    if files == [] then [] else FileSteps(files[..|files| - 1], pretend) + [Step(files[|files| - 1], pretend)]
  }

  /** A deleting pass over files of the target's bucket under its prefix only deletes such files. */
  lemma DeletingPassUnder(files: seq<StorageObject>, t: Target)
    requires forall j :: 0 <= j < |files| ==> files[j].bucket == t.bucket && StartsWith(files[j].name, t.prefix)
    ensures DeletionsUnder(FileSteps(files, false), t)
  {
  }

  /** Every step is the deletion of a key under the target's prefix in the target's bucket. */
  predicate DeletionsUnder(steps: seq<Action>, t: Target) {
    forall i :: 0 <= i < |steps| ==>
      steps[i].Deleted? && steps[i].obj.bucket == t.bucket && StartsWith(steps[i].obj.name, t.prefix)
  }

  lemma DeletionsUnderConcat(a: seq<Action>, b: seq<Action>, t: Target)
    requires DeletionsUnder(a, t) && DeletionsUnder(b, t)
    ensures DeletionsUnder(a + b, t)
  {
    forall i | 0 <= i < |a + b| ensures (a + b)[i] == if i < |a| then a[i] else b[i - |a|] {
    }
  }

  /** No key under `p` lags: one delete removes each of them. */
  predicate NoLagUnder(b: Bucket, p: String) {
    forall k :: k in b.keys && StartsWith(k, p) ==> LagOf(b.lag, k) == 0
  }

  /** Deletes still needed before nothing is listed under the prefix of image `id`. */
  function Remaining(images: seq<Image>, buckets: map<String, Bucket>, id: String): nat {
    match TargetOf(images, id)
    case None => 0
    case Some(t) => if t.bucket in buckets then BucketDebt(buckets[t.bucket], t.prefix) else 0
  }

  /**
   * How `remove_image_files(id, pretend)` ends, given the registry and the buckets it starts from:
   * it logs a missing image, raises for a missing bucket, and otherwise returns.
   */
  function RemovalOutcome(images: seq<Image>, buckets: map<String, Bucket>, id: String): (r: Outcome)
    ensures r == ImageNotFound <==> forall im :: im in images ==> im.id != id
    ensures r == Finished <==> Lookup(images, id).Some? && BucketName(Lookup(images, id).value.location) in buckets
    ensures r.Raised? ==>
              && Lookup(images, id).Some? && BucketName(Lookup(images, id).value.location) !in buckets
              && r.error == NoSuchBucket(BucketName(Lookup(images, id).value.location))
  {
    match TargetOf(images, id)
    case None => ImageNotFound
    case Some(t) => if t.bucket in buckets then Finished else Raised(NoSuchBucket(t.bucket))
  }

  /**
   * The buckets once `remove_image_files(id, pretend)` has returned: when it deletes, the image's
   * bucket keeps exactly its keys outside the prefix.
   */
  function BucketsAfterRemoval(images: seq<Image>, buckets: map<String, Bucket>, id: String, pretend: bool): (r: map<String, Bucket>)
    ensures r.Keys == buckets.Keys
    ensures pretend || TargetOf(images, id).None? ==> r == buckets
    ensures forall name :: name in buckets && (TargetOf(images, id).None? || name != TargetOf(images, id).value.bucket) ==>
              r[name] == buckets[name]
    ensures !pretend && TargetOf(images, id).Some? && TargetOf(images, id).value.bucket in buckets ==>
              var t := TargetOf(images, id).value;
              forall k :: k in r[t.bucket].keys <==> k in buckets[t.bucket].keys && !StartsWith(k, t.prefix)
  {
    match TargetOf(images, id)
    case None => buckets
    case Some(t) =>
      if pretend || t.bucket !in buckets then buckets
      else
        PurgeOneBucket(buckets, t);
        buckets[t.bucket := Purge(buckets[t.bucket], t.prefix)]
  }

  /** Purging the target's bucket keeps every bucket name and changes no other bucket. */
  lemma PurgeOneBucket(buckets: map<String, Bucket>, t: Target)
    requires t.bucket in buckets
    ensures var r := buckets[t.bucket := Purge(buckets[t.bucket], t.prefix)];
            && r.Keys == buckets.Keys
            && (forall name :: name in buckets && name != t.bucket ==> r[name] == buckets[name])
            && forall k :: k in r[t.bucket].keys <==> k in buckets[t.bucket].keys && !StartsWith(k, t.prefix)
  {
    var r := buckets[t.bucket := Purge(buckets[t.bucket], t.prefix)];
    assert r.Keys == buckets.Keys + {t.bucket};
  }

  /**
   * The steps `remove_image_files(id, pretend)` takes: none when it cannot start, the printed
   * listing when pretending, and otherwise deletions of keys under the prefix only, which are
   * exactly the first listing when no key lags.
   */
  ghost predicate RemovalSteps(images: seq<Image>, buckets: map<String, Bucket>, id: String, pretend: bool, steps: seq<Action>): (ok: bool)
    ensures ok && RemovalOutcome(images, buckets, id) != Finished ==> steps == []
    ensures ok && RemovalOutcome(images, buckets, id) == Finished ==>
              var t := TargetOf(images, id).value;
              forall i :: 0 <= i < |steps| ==>
                && (if pretend then steps[i].WouldDelete? else steps[i].Deleted?)
                && steps[i].obj.bucket == t.bucket && StartsWith(steps[i].obj.name, t.prefix)
                && (pretend ==> steps[i].obj.name in buckets[t.bucket].keys)
  {
    match TargetOf(images, id)
    case None => steps == []
    case Some(t) =>
      if t.bucket !in buckets then steps == []
      else
        var files := Objects(t.bucket, Listing(buckets[t.bucket], t.prefix));
        if pretend then steps == FileSteps(files, true)
        else DeletionsUnder(steps, t) && (NoLagUnder(buckets[t.bucket], t.prefix) ==> steps == FileSteps(files, false))
  }

  /** Deleting the first listing: progress towards purged, and a second listing only after a lag. */
  lemma DeletePass(start: Bucket, t: Target)
    requires ValidBucket(start)
    ensures var files := Objects(t.bucket, Listing(start, t.prefix));
            var cur := DeleteObjects(start, files);
            && DeletedUnder(start, cur, t.prefix, |files|)
            && DeletionsUnder(FileSteps(files, false), t)
            && (Listing(cur, t.prefix) != [] ==> BucketDebt(cur, t.prefix) < BucketDebt(start, t.prefix))
            && (NoLagUnder(start, t.prefix) ==> Listing(cur, t.prefix) == [])
  {
    var files := Objects(t.bucket, Listing(start, t.prefix));
    var cur := DeleteObjects(start, files);
    DeleteListing(start, t.bucket, t.prefix);
    DebtZero(start, t.prefix);
    DebtZero(cur, t.prefix);
    if NoLagUnder(start, t.prefix) {
      DebtWithoutLag(start, t.prefix);
    }
    DeletingPassUnder(files, t);
  }

  /**
   * The registry once `remove_image(id, pretend)` has returned: the image is deregistered only
   * when its files were really removed.
   */
  function ImagesAfterRemoval(images: seq<Image>, buckets: map<String, Bucket>, id: String, pretend: bool): (r: seq<Image>)
    ensures pretend || RemovalOutcome(images, buckets, id) != Finished ==> r == images
    ensures !pretend && RemovalOutcome(images, buckets, id) == Finished ==>
              forall im :: im in r <==> im in images && im.id != id
  {
    if !pretend && RemovalOutcome(images, buckets, id) == Finished then WithoutImage(images, id) else images
  }

  /** One pass followed by the double check leaves the buckets and takes the steps of a removal. */
  lemma PassThenRecheck(images: seq<Image>, id: String, pretend: bool, t: Target, before: map<String, Bucket>,
                        after: map<String, Bucket>, final: map<String, Bucket>, pass: seq<Action>, more: seq<Action>)
    requires TargetOf(images, id) == Some(t) && t.bucket in before && ValidBucket(before[t.bucket])
    requires var files := Objects(t.bucket, Listing(before[t.bucket], t.prefix));
             && pass == FileSteps(files, pretend)
             && after == if pretend then before else before[t.bucket := DeleteObjects(before[t.bucket], files)]
    requires pretend ==> final == after && more == []
    requires !pretend ==>
               && final == after[t.bucket := Purge(after[t.bucket], t.prefix)]
               && DeletionsUnder(more, t)
               && (Listing(after[t.bucket], t.prefix) == [] ==> more == [])
    ensures final == BucketsAfterRemoval(images, before, id, pretend)
    ensures RemovalSteps(images, before, id, pretend, pass + more)
  {
    if !pretend {
      var start := before[t.bucket];
      DeletePass(start, t);
      UpdateTwice(before, t.bucket, after[t.bucket], Purge(start, t.prefix));
      DeletionsUnderConcat(pass, more, t);
    }
  }

  /** The `for image in ...: if image.id == image_id: return image` scan. */
  method FindById(images: seq<Image>, id: String) returns (r: Option<Image>)
    ensures r == Lookup(images, id)
  {
    var k := 0;
    while k < |images|
      invariant 0 <= k <= |images|
      invariant forall j :: 0 <= j < k ==> images[j].id != id
    {
      if images[k].id == id {
        LookupIsFirstMatch(images, id, k);
        return Some(images[k]);
      }
      k := k + 1;
    }
    LookupMissing(images, id);
    return None;
  }

  class EasyEC2 {
    const cache: bool
    /** EasyEC2's own connection. */
    const aws: EasyAWS
    /** The connection of its EasyS3 collaborator `s3`. */
    const s3: EasyAWS
    const cloud: Cloud
    /** `_images`. */
    var images: Option<seq<Image>>
    /** How many times the registered images have been fetched. */
    ghost var imageFetches: nat

    /** With caching on, the images are fetched at most once, and only when they are held. */
    ghost predicate Valid()
      reads this, aws, s3, cloud
    {
      && aws != s3 && aws.Valid() && s3.Valid() && cloud.Valid()
      && (cache ==> imageFetches == (if images.Some? then 1 else 0))
    }

    constructor (credentials: Credentials, cache: bool, cloud: Cloud,
                 connectEc2: Credentials -> Handle, connectS3: Credentials -> Handle)
      requires cloud.Valid()
      ensures Valid() && fresh(aws) && fresh(s3)
      ensures this.cache == cache && this.cloud == cloud
      ensures aws.credentials == credentials && aws.authenticator == connectEc2 && aws.connection == None
      ensures s3.credentials == credentials && s3.authenticator == connectS3 && s3.connection == None
      ensures images == None && imageFetches == 0
    {
      this.cache := cache;
      this.cloud := cloud;
      aws := new EasyAWS(credentials, connectEc2);
      s3 := new EasyAWS(credentials, connectS3);
      images := None;
      imageFetches := 0;
    }

    /** What `registered_images` would return now: the held list, or a fresh fetch. */
    ghost function Visible(): seq<Image>
      reads this, cloud
    {
      if cache && images.Some? then images.value else OwnedBy(cloud.images, cloud.account)
    }

    /**
     * The `registered_images` property: fetch the account's images when caching is off or
     * nothing is held yet; otherwise hand back the held list.
     */
    method RegisteredImages() returns (imgs: seq<Image>)
      requires Valid()
      modifies this`images, this`imageFetches, aws
      ensures Valid()
      ensures imgs == old(Visible()) && images == Some(imgs)
      ensures imageFetches == old(imageFetches) + (if !cache || old(images).None? then 1 else 0)
    {
      if !cache || images.None? {
        var _ := aws.Conn();
        images := Some(OwnedBy(cloud.images, cloud.account));
        imageFetches := imageFetches + 1;
      }
      imgs := images.value;
    }

    /**
     * `get_registered_image(id)`: reject a malformed id without touching anything, else the first
     * registered image with that id, or None.
     */
    method GetRegisteredImage(id: String) returns (r: Result<Option<Image>, Error>)
      requires Valid()
      modifies this`images, this`imageFetches, aws
      ensures Valid()
      ensures !ValidAmiId(id) ==> r == Failure(InvalidAmiId(id)) && unchanged(this, aws)
      ensures ValidAmiId(id) ==> r == Success(Lookup(old(Visible()), id)) && images == Some(old(Visible()))
    {
      if !ValidAmiId(id) {
        return Failure(InvalidAmiId(id));
      }
      var imgs := RegisteredImages();
      var found := FindById(imgs, id);
      return Success(found);
    }

    /** `get_image(id)`: the image with that id in the whole registry, or None. */
    method GetImage(id: String) returns (r: Option<Image>)
      requires Valid()
      modifies aws
      ensures Valid()
      ensures r == Lookup(cloud.images, id)
    {
      var _ := aws.Conn();
      r := Lookup(cloud.images, id);
    }

    /** `get_image_files(id)`: list the image's bucket under the image's key prefix. */
    method GetImageFiles(id: String) returns (r: Result<seq<StorageObject>, Error>)
      requires Valid()
      modifies aws, s3
      ensures Valid()
      ensures r == ImageFiles(cloud.images, cloud.buckets, id)
    {
      var image := GetImage(id);
      if image.None? {
        return Failure(NoImage(id));
      }
      var location := image.value.location;
      var bucketName := BucketName(location);
      var _ := s3.Conn();
      if bucketName !in cloud.buckets {
        return Failure(NoSuchBucket(bucketName));
      }
      var prefix := KeyPrefix(location);
      r := Success(Objects(bucketName, Listing(cloud.buckets[bucketName], prefix)));
    }

    /** `get_all_instances()`: every instance of every reservation, reservation by reservation. */
    method GetAllInstances() returns (instances: seq<Instance>)
      requires Valid()
      modifies aws
      ensures Valid()
      ensures instances == Flatten(cloud.reservations)
    {
      var _ := aws.Conn();
      var reservations := cloud.reservations;
      instances := [];
      for i := 0 to |reservations|
        invariant instances == Flatten(reservations[..i])
        modifies {}
      {
        FlattenAppend(reservations[..i], reservations[i]);
        assert reservations[..i + 1] == reservations[..i] + [reservations[i]];
        instances := instances + reservations[i].instances;
      }
      assert reservations[..|reservations|] == reservations;
    }

    /** The filtering and sorting of `list_registered_images`: 32-bit and 64-bit images by key. */
    method ListRegisteredImages() returns (i386: seq<Image>, x86_64: seq<Image>)
      requires Valid()
      modifies this`images, this`imageFetches, aws
      ensures Valid()
      ensures i386 == SortByKey(WithArch(old(Visible()), "i386"))
      ensures x86_64 == SortByKey(WithArch(old(Visible()), "x86_64"))
    {
      var imgs := RegisteredImages();
      i386 := SortByKey(WithArch(imgs, "i386"));
      x86_64 := SortByKey(WithArch(imgs, "x86_64"));
    }

    /**
     * `remove_image_files(id, pretend)`: list the image's files, print (`pretend`) or delete each
     * one, then do the recursive double check. `steps` is what it printed or deleted, in order.
     */
    method RemoveImageFiles(id: String, pretend: bool := true) returns (outcome: Outcome, steps: seq<Action>)
      requires Valid()
      modifies aws, s3, cloud
      ensures Valid()
      ensures cloud.images == old(cloud.images) && cloud.reservations == old(cloud.reservations)
      ensures outcome == RemovalOutcome(cloud.images, old(cloud.buckets), id)
      ensures cloud.buckets == BucketsAfterRemoval(cloud.images, old(cloud.buckets), id, pretend)
      ensures RemovalSteps(cloud.images, old(cloud.buckets), id, pretend, steps)
      decreases Remaining(cloud.images, cloud.buckets, id), 3
    {
      var image := GetImage(id);
      if image.None? {
        return ImageNotFound, [];
      }
      var listed := GetImageFiles(id);
      if listed.Failure? {
        return Raised(listed.error), [];
      }
      ghost var t := Locate(image.value);
      assert listed.value == Objects(t.bucket, Listing(cloud.buckets[t.bucket], t.prefix));
      outcome, steps := RemoveFiles(id, listed.value, pretend, t);
    }

    /** The part of `remove_image_files` after the first listing: the pass, then the double check. */
    method RemoveFiles(id: String, files: seq<StorageObject>, pretend: bool, ghost t: Target)
      returns (outcome: Outcome, steps: seq<Action>)
      requires Valid()
      requires TargetOf(cloud.images, id) == Some(t) && t.bucket in cloud.buckets
      requires files == Objects(t.bucket, Listing(cloud.buckets[t.bucket], t.prefix))
      modifies aws, s3, cloud
      ensures Valid()
      ensures cloud.images == old(cloud.images) && cloud.reservations == old(cloud.reservations)
      ensures outcome == Finished
      ensures cloud.buckets == BucketsAfterRemoval(cloud.images, old(cloud.buckets), id, pretend)
      ensures RemovalSteps(cloud.images, old(cloud.buckets), id, pretend, steps)
      decreases Remaining(cloud.images, cloud.buckets, id), 2
    {
      ghost var remaining := Remaining(cloud.images, cloud.buckets, id);
      ghost var before := cloud.buckets;
      var pass := ProcessFiles(files, pretend, t.bucket);
      ghost var after := cloud.buckets;
      if !pretend {
        DeletePass(before[t.bucket], t);
      }
      assert cloud.Valid();
      var more;
      outcome, more := Recheck(id, pretend, t, remaining);
      steps := pass + more;
      PassThenRecheck(cloud.images, id, pretend, t, before, after, cloud.buckets, pass, more);
    }

    /**
     * The recursive double check of `remove_image_files`: list the image's files again and, when
     * anything is left, report it (`pretend`) or start over.
     */
    method Recheck(id: String, pretend: bool, ghost t: Target, ghost prior: nat) returns (outcome: Outcome, steps: seq<Action>)
      requires Valid()
      requires TargetOf(cloud.images, id) == Some(t) && t.bucket in cloud.buckets
      requires !pretend && Listing(cloud.buckets[t.bucket], t.prefix) != [] ==> Remaining(cloud.images, cloud.buckets, id) < prior
      modifies aws, s3, cloud
      ensures Valid()
      ensures cloud.images == old(cloud.images) && cloud.reservations == old(cloud.reservations)
      ensures outcome == Finished
      ensures pretend ==> cloud.buckets == old(cloud.buckets) && steps == []
      ensures !pretend ==>
                && cloud.buckets == old(cloud.buckets)[t.bucket := Purge(old(cloud.buckets)[t.bucket], t.prefix)]
                && DeletionsUnder(steps, t)
                && (Listing(old(cloud.buckets)[t.bucket], t.prefix) == [] ==> steps == [])
      decreases prior, 1
    {
      var listed := GetImageFiles(id);
      assert listed == Success(Objects(t.bucket, Listing(cloud.buckets[t.bucket], t.prefix)));
      var files := listed.value;
      if |files| != 0 {
        if pretend {
          return Finished, [];
        }
        outcome, steps := RemoveImageFiles(id, pretend);
      } else {
        if !pretend {
          PurgeWhenNothingListed(cloud.buckets[t.bucket], t.prefix);
        }
        outcome, steps := Finished, [];
      }
    }

    /**
     * The `for file in files` pass of `remove_image_files`: print each listed file, or delete it.
     */
    method ProcessFiles(files: seq<StorageObject>, pretend: bool, ghost bucket: String) returns (steps: seq<Action>)
      requires bucket in cloud.buckets
      requires forall j :: 0 <= j < |files| ==> files[j].bucket == bucket
      modifies cloud
      ensures cloud.images == old(cloud.images) && cloud.reservations == old(cloud.reservations)
      ensures steps == FileSteps(files, pretend)
      ensures cloud.buckets == if pretend then old(cloud.buckets) else old(cloud.buckets)[bucket := DeleteObjects(old(cloud.buckets)[bucket], files)]
    {
      ghost var before := cloud.buckets;
      steps := [];
      var i := 0;
      while i < |files|
        invariant 0 <= i <= |files|
        invariant cloud.images == old(cloud.images) && cloud.reservations == old(cloud.reservations)
        invariant steps == FileSteps(files[..i], pretend)
        invariant cloud.buckets == if pretend then before else before[bucket := DeleteObjects(before[bucket], files[..i])]
      {
        var file := files[i];
        if pretend {
          steps := steps + [WouldDelete(file)];
        } else {
          steps := steps + [Deleted(file)];
          cloud.DeleteObject(file);
        }
        assert files[..i + 1][..i] == files[..i];
        i := i + 1;
      }
      assert files[..|files|] == files;
    }

    /**
     * `remove_image(id, pretend)` as intended: remove (or print) the image's files, then
     * deregister the image (or say that it would). A missing bucket stops it before the image
     * is deregistered.
     */
    method RemoveImage(id: String, pretend: bool := true) returns (outcome: Outcome, steps: seq<Action>)
      requires Valid()
      modifies aws, s3, cloud
      ensures Valid()
      ensures cloud.reservations == old(cloud.reservations)
      ensures outcome == RemovalOutcome(old(cloud.images), old(cloud.buckets), id)
      ensures cloud.buckets == BucketsAfterRemoval(old(cloud.images), old(cloud.buckets), id, pretend)
      ensures cloud.images == ImagesAfterRemoval(old(cloud.images), old(cloud.buckets), id, pretend)
      ensures outcome != Finished ==> steps == []
      ensures outcome == Finished ==>
                && |steps| > 0
                && steps[|steps| - 1] == (if pretend then WouldDeregister(id) else Deregistered(id))
                && RemovalSteps(old(cloud.images), old(cloud.buckets), id, pretend, steps[..|steps| - 1])
    {
      var image := GetImage(id);
      if image.None? {
        return ImageNotFound, [];
      }
      outcome, steps := RemoveImageFiles(id, pretend);
      if outcome != Finished {
        return;
      }
      ghost var fileSteps := steps;
      var step := Deregister(image.value.id, pretend);
      steps := steps + [step];
      assert steps[..|steps| - 1] == fileSteps;
    }

    /** The last part of `remove_image`: deregister the image, or say that it would. */
    method Deregister(ami: String, pretend: bool) returns (step: Action)
      requires cloud.Valid()
      modifies cloud
      ensures cloud.Valid()
      ensures cloud.buckets == old(cloud.buckets) && cloud.reservations == old(cloud.reservations)
      ensures cloud.images == if pretend then old(cloud.images) else WithoutImage(old(cloud.images), ami)
      ensures step == if pretend then WouldDeregister(ami) else Deregistered(ami)
    {
      if pretend {
        step := WouldDeregister(ami);
      } else {
        cloud.DeregisterImage(ami);
        step := Deregistered(ami);
      }
    }

    /**
     * `remove_image(id, pretend)` as written: with `pretend` set it logs a name that is never
     * defined, so for an image that exists it raises before touching anything.
     */
    method RemoveImageAsWritten(id: String, pretend: bool := true) returns (outcome: Outcome, steps: seq<Action>)
      requires Valid()
      modifies aws, s3, cloud
      ensures Valid()
      ensures pretend && Lookup(old(cloud.images), id).Some? ==>
                && outcome == Raised(UndefinedName("imageid")) && steps == []
                && cloud.images == old(cloud.images) && cloud.buckets == old(cloud.buckets)
      ensures !pretend || Lookup(old(cloud.images), id).None? ==>
                && outcome == RemovalOutcome(old(cloud.images), old(cloud.buckets), id)
                && cloud.buckets == BucketsAfterRemoval(old(cloud.images), old(cloud.buckets), id, pretend)
                && cloud.images == ImagesAfterRemoval(old(cloud.images), old(cloud.buckets), id, pretend)
                && (outcome != Finished ==> steps == [])
                && (outcome == Finished ==>
                      && |steps| > 0
                      && steps[|steps| - 1] == Deregistered(id)
                      && RemovalSteps(old(cloud.images), old(cloud.buckets), id, pretend, steps[..|steps| - 1]))
    {
      var image := GetImage(id);
      if image.None? {
        return ImageNotFound, [];
      }
      if pretend {
        return Raised(UndefinedName("imageid")), [];
      }
      outcome, steps := RemoveImage(id, pretend);
    }
  }
}
