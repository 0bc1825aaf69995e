/**
 * Concrete instances of the deletion protocol on a small cloud: one registered image
 * `ami-1234abcd` whose manifest is `mybucket/img.manifest.xml`, two files under the key
 * prefix `img`, and an unrelated manifest in the same bucket.
 */
module Scenarios {
  import opened Wrappers
  import opened Collections
  import opened PyStr
  import opened Locations
  import opened Resources
  import opened Storage
  import opened Aws
  import opened Remote
  import opened Ec2

  const Ami: String := "ami-1234abcd"
  const Prefix: String := "img"
  const ManifestKey: Key := Prefix + ManifestSuffix
  const PartKey: Key := Prefix + ".part.0"
  const OtherKey: Key := "other.manifest.xml"
  const Manifest: StorageObject := StorageObject("mybucket", ManifestKey)
  const Part: StorageObject := StorageObject("mybucket", PartKey)

  function SampleImage(): Image {
    Image(Ami, "mybucket" + "/" + Prefix + ManifestSuffix, "x86_64", "us-east-1", "me")
  }

  function SampleBucket(): Bucket {
    Bucket([ManifestKey, PartKey, OtherKey], map[])
  }

  function SampleBuckets(): map<String, Bucket> {
    map["mybucket" := SampleBucket()]
  }

  /** The image's files are in `mybucket` under the key prefix `img`. */
  lemma SampleTarget()
    ensures TargetOf([SampleImage()], Ami) == Some(Target("mybucket", Prefix))
  {
    WellFormedLocation("mybucket", Prefix);
  }

  /** Two of the keys are under the prefix, the third is not. */
  lemma SampleKeys()
    ensures StartsWith(ManifestKey, Prefix) && StartsWith(PartKey, Prefix) && !StartsWith(OtherKey, Prefix)
    ensures ValidBucket(SampleBucket())
  {
    assert OtherKey[0] != Prefix[0];
    assert ManifestKey[4] != PartKey[4];
  }

  /** Listing a bucket looks at its keys one at a time, in order. */
  lemma ListingStep(k: Key, keys: seq<Key>, lag: map<Key, nat>, p: String)
    ensures Listing(Bucket([k] + keys, lag), p) == (if StartsWith(k, p) then [k] else []) + Listing(Bucket(keys, lag), p)
  {
    assert ([k] + keys)[1..] == keys;
  }

  /** The keys listed under the prefix are the two image files, in bucket order. */
  lemma SampleListing()
    ensures Listing(SampleBucket(), Prefix) == [ManifestKey, PartKey]
  {
    var none: map<Key, nat> := map[];
    SampleKeys();
    ListingStep(OtherKey, [], none, Prefix);
    ListingStep(PartKey, [OtherKey], none, Prefix);
    ListingStep(ManifestKey, [PartKey, OtherKey], none, Prefix);
  }

  /** The files to remove are the two image files, and neither lags. */
  lemma SampleFiles()
    ensures Objects("mybucket", Listing(SampleBucket(), Prefix)) == [Manifest, Part]
    ensures NoLagUnder(SampleBucket(), Prefix)
  {
    SampleListing();
  }

  /** One step per file, in listing order. */
  lemma SampleFileSteps(pretend: bool)
    ensures FileSteps([Manifest, Part], pretend) == [Step(Manifest, pretend), Step(Part, pretend)]
  {
    var files := [Manifest, Part];
    assert files[..1] == [Manifest];
    assert files[..1][..0] == [];
  }

  /** Removing the sample image's files runs to the end. */
  lemma SampleOutcome()
    ensures RemovalOutcome([SampleImage()], SampleBuckets(), Ami) == Finished
  {
    SampleTarget();
  }

  /** A dry run leaves the registry alone; a real one leaves it empty. */
  lemma SampleImagesAfter(pretend: bool)
    ensures ImagesAfterRemoval([SampleImage()], SampleBuckets(), Ami, pretend) == if pretend then [SampleImage()] else []
  {
    SampleOutcome();
    var images := [SampleImage()];
    assert images[1..] == [];
  }

  /** The steps of removing the sample image's files: one per file, in listing order. */
  lemma SampleSteps(pretend: bool, steps: seq<Action>)
    requires RemovalSteps([SampleImage()], SampleBuckets(), Ami, pretend, steps)
    ensures |steps| == 2 && steps[0] == Step(Manifest, pretend) && steps[1] == Step(Part, pretend)
  {
    SampleTarget();
    SampleFiles();
    SampleFileSteps(pretend);
  }

  /** Whatever satisfies `remove_image(id, pretend=False)`'s contract on the sample is this run. */
  lemma DeleteResult(outcome: Outcome, steps: seq<Action>, images: seq<Image>, buckets: map<String, Bucket>)
    requires outcome == RemovalOutcome([SampleImage()], SampleBuckets(), Ami)
    requires buckets == BucketsAfterRemoval([SampleImage()], SampleBuckets(), Ami, false)
    requires images == ImagesAfterRemoval([SampleImage()], SampleBuckets(), Ami, false)
    requires outcome == Finished ==>
               && |steps| > 0 && steps[|steps| - 1] == Deregistered(Ami)
               && RemovalSteps([SampleImage()], SampleBuckets(), Ami, false, steps[..|steps| - 1])
    ensures outcome == Finished && images == []
    ensures "mybucket" in buckets && forall k :: k in buckets["mybucket"].keys <==> k == OtherKey
    ensures |steps| == 3 && steps[0] == Deleted(Manifest) && steps[1] == Deleted(Part) && steps[2] == Deregistered(Ami)
  {
    SampleOutcome();
    SampleTarget();
    SampleKeys();
    SampleImagesAfter(false);
    var front := steps[..|steps| - 1];
    SampleSteps(false, front);
    assert steps[0] == front[0] && steps[1] == front[1];
  }

  /** Whatever satisfies `remove_image(id, pretend=True)`'s contract on the sample is this run. */
  lemma DryRunResult(outcome: Outcome, steps: seq<Action>, images: seq<Image>, buckets: map<String, Bucket>)
    requires outcome == RemovalOutcome([SampleImage()], SampleBuckets(), Ami)
    requires buckets == BucketsAfterRemoval([SampleImage()], SampleBuckets(), Ami, true)
    requires images == ImagesAfterRemoval([SampleImage()], SampleBuckets(), Ami, true)
    requires outcome == Finished ==>
               && |steps| > 0 && steps[|steps| - 1] == WouldDeregister(Ami)
               && RemovalSteps([SampleImage()], SampleBuckets(), Ami, true, steps[..|steps| - 1])
    ensures outcome == Finished && images == [SampleImage()] && buckets == SampleBuckets()
    ensures |steps| == 3 && steps[0] == WouldDelete(Manifest) && steps[1] == WouldDelete(Part) && steps[2] == WouldDeregister(Ami)
  {
    SampleOutcome();
    SampleImagesAfter(true);
    var front := steps[..|steps| - 1];
    SampleSteps(true, front);
    assert steps[0] == front[0] && steps[1] == front[1];
  }

  method NewSample() returns (ec2: EasyEC2)
    ensures fresh(ec2) && fresh(ec2.aws) && fresh(ec2.s3) && fresh(ec2.cloud) && ec2.Valid()
    ensures ec2.cloud.images == [SampleImage()] && ec2.cloud.buckets == SampleBuckets()
  {
    SampleKeys();
    var cloud := new Cloud("me", [SampleImage()], [], SampleBuckets());
    ec2 := new EasyEC2(Credentials("key", "secret"), false, cloud, (c: Credentials) => Handle(0), (c: Credentials) => Handle(1));
  }

  /** `remove_image(id, pretend=False)` deletes both files, keeps the other key, and deregisters. */
  method DeleteScenario() {
    var ec2 := NewSample();
    var outcome, steps := ec2.RemoveImage(Ami, false);
    DeleteResult(outcome, steps, ec2.cloud.images, ec2.cloud.buckets);
    assert ec2.cloud.images == [] && OtherKey in ec2.cloud.buckets["mybucket"].keys;
  }

  /** The intended dry run lists both files and would deregister, changing nothing. */
  method DryRunScenario() {
    var ec2 := NewSample();
    var outcome, steps := ec2.RemoveImage(Ami);
    DryRunResult(outcome, steps, ec2.cloud.images, ec2.cloud.buckets);
    assert steps[0] == WouldDelete(Manifest) && ec2.cloud.buckets == SampleBuckets();
  }

  /** The dry run as written stops at the undefined name before listing anything. */
  method DryRunAsWrittenScenario() {
    var ec2 := NewSample();
    var outcome, steps := ec2.RemoveImageAsWritten(Ami);
    assert outcome == Raised(UndefinedName("imageid")) && steps == [];
  }
}
