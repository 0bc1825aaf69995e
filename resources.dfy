/**
 * The EC2 records EasyEC2 reads (images, reservations, instances) and the pure parts of its
 * accessors over them: lookup of the first image with an id, the owner filter of the
 * registered-image listing, flattening reservations, and the per-architecture listing sorted
 * by `region + ' ' + location`.
 */
module Resources {
  import opened Wrappers
  import opened Collections
  import opened PyStr

  datatype Image = Image(id: String, location: String, architecture: String, region: String, owner: String)

  datatype Instance = Instance(id: String)

  datatype Reservation = Reservation(id: String, instances: seq<Instance>)

  /** Index of the first image whose id is `id`. */
  function FirstIndex(images: seq<Image>, id: String): (r: Option<nat>)
    ensures r.Some? ==> r.value < |images| && images[r.value].id == id
    ensures r.Some? ==> forall j :: 0 <= j < r.value ==> images[j].id != id
    ensures r.None? ==> forall j :: 0 <= j < |images| ==> images[j].id != id
  {
    if images == [] then None
    else if images[0].id == id then Some(0)
    else match FirstIndex(images[1..], id)
      case None => None
      case Some(i) => Some(i + 1)
  }

  /** The first image in `images` with id `id`, or `None` when there is none. */
  function Lookup(images: seq<Image>, id: String): (r: Option<Image>)
    ensures r.Some? ==> r.value in images && r.value.id == id
    ensures r.None? <==> forall im :: im in images ==> im.id != id
  {
    match FirstIndex(images, id)
    case None => None
    case Some(i) => Some(images[i])
  }

  /** With no image of that id, Lookup finds nothing. */
  lemma LookupMissing(images: seq<Image>, id: String)
    requires forall j :: 0 <= j < |images| ==> images[j].id != id
    ensures Lookup(images, id) == None
  {
    assert FirstIndex(images, id).None?;
  }

  /** A scan that stops at the first match finds what Lookup names. */
  lemma LookupIsFirstMatch(images: seq<Image>, id: String, k: nat)
    requires k < |images| && images[k].id == id
    requires forall j :: 0 <= j < k ==> images[j].id != id
    ensures Lookup(images, id) == Some(images[k])
  {
    var r := FirstIndex(images, id);
    assert r.Some? && r.value == k;
  }

  /** `get_all_images(owners=[account])` on the whole registry. */
  function OwnedBy(images: seq<Image>, account: String): (r: seq<Image>)
    ensures forall im :: im in r <==> im in images && im.owner == account
    ensures forall im :: multiset(r)[im] == if im.owner == account then multiset(images)[im] else 0
  {
    var owned := (im: Image) => im.owner == account;
    assert forall im :: multiset(Filter(images, owned))[im] == if owned(im) then multiset(images)[im] else 0 by {
      forall im {
        FilterMultiset(images, owned, im);
      }
    }
    Filter(images, owned)
  }

  /** `[img for img in images if img.architecture == arch]`. */
  function WithArch(images: seq<Image>, arch: String): (r: seq<Image>)
    ensures forall im :: im in r <==> im in images && im.architecture == arch
    ensures forall im :: multiset(r)[im] == if im.architecture == arch then multiset(images)[im] else 0
  {
    var ofArch := (im: Image) => im.architecture == arch;
    assert forall im :: multiset(Filter(images, ofArch))[im] == if ofArch(im) then multiset(images)[im] else 0 by {
      forall im {
        FilterMultiset(images, ofArch, im);
      }
    }
    Filter(images, ofArch)
  }

  /** The number of instances the reservations hold together. */
  function InstanceCount(reservations: seq<Reservation>): nat {
    if reservations == [] then 0 else |reservations[0].instances| + InstanceCount(reservations[1..])
  }

  /** The concatenation of the reservations' instance lists, in order. */
  function Flatten(reservations: seq<Reservation>): (r: seq<Instance>)
    ensures |r| == InstanceCount(reservations)
  {
    if reservations == [] then []
    else reservations[0].instances + Flatten(reservations[1..])
  }

  /** Appending one reservation appends its instances: the step of the `extend` loop. */
  lemma {:induction false} FlattenAppend(reservations: seq<Reservation>, r: Reservation)
    ensures Flatten(reservations + [r]) == Flatten(reservations) + r.instances
  {
    if reservations != [] {
      assert (reservations + [r])[1..] == reservations[1..] + [r];
      FlattenAppend(reservations[1..], r);
    }
  }

  /** An instance is listed exactly when some reservation holds it. */
  lemma {:induction false} FlattenMembers(reservations: seq<Reservation>, x: Instance)
    ensures x in Flatten(reservations) <==> exists r :: r in reservations && x in r.instances
  {
    if reservations != [] {
      FlattenMembers(reservations[1..], x);
      assert forall r :: r in reservations <==> r == reservations[0] || r in reservations[1..];
    }
  }

  /** The sort key of `list_registered_images`: `str(region) + ' ' + str(location)`. */
  function SortKey(im: Image): (key: String)
    ensures |key| == |im.region| + 1 + |im.location|
    ensures key[..|im.region|] == im.region && key[|im.region|] == ' ' && key[|im.region| + 1..] == im.location
  {
    im.region + " " + im.location
  }

  predicate SortedByKey(images: seq<Image>) {
    forall i, j :: 0 <= i < j < |images| ==> LessEq(SortKey(images[i]), SortKey(images[j]))
  }

  /** Puts `x` in front of the first element whose key is not below its own. */
  function Insert(x: Image, images: seq<Image>): (r: seq<Image>)
    ensures multiset(r) == multiset(images) + multiset{x}
  {
    if images == [] || LessEq(SortKey(x), SortKey(images[0])) then [x] + images
    else
      assert images == [images[0]] + images[1..];
      [images[0]] + Insert(x, images[1..])
  }

  /** An image whose key is at most every key of a sorted list can go in front of it. */
  lemma SortedCons(y: Image, images: seq<Image>)
    requires SortedByKey(images)
    requires forall j :: 0 <= j < |images| ==> LessEq(SortKey(y), SortKey(images[j]))
    ensures SortedByKey([y] + images)
  {
    var r := [y] + images;
    forall i, j | 0 <= i < j < |r| ensures LessEq(SortKey(r[i]), SortKey(r[j])) {
      assert r[j] == images[j - 1];
      if i > 0 {
        assert r[i] == images[i - 1];
      }
    }
  }

  lemma {:induction false} InsertSorted(x: Image, images: seq<Image>)
    requires SortedByKey(images)
    ensures SortedByKey(Insert(x, images))
  {
    if images == [] {
    } else if LessEq(SortKey(x), SortKey(images[0])) {
      forall j | 0 <= j < |images| ensures LessEq(SortKey(x), SortKey(images[j])) {
        if j > 0 {
          LessEqTransitive(SortKey(x), SortKey(images[0]), SortKey(images[j]));
        }
      }
      SortedCons(x, images);
    } else {
      var y := images[0];
      var tail := images[1..];
      assert SortedByKey(tail);
      InsertSorted(x, tail);
      var ins := Insert(x, tail);
      LessEqTotal(SortKey(x), SortKey(y));
      forall j | 0 <= j < |ins| ensures LessEq(SortKey(y), SortKey(ins[j])) {
        var z := ins[j];
        assert z in multiset(ins);
        if z != x {
          assert z in multiset(tail);
          var k :| 0 <= k < |tail| && tail[k] == z;
          assert images[k + 1] == z;
        }
      }
      SortedCons(y, ins);
    }
  }

  /**
   * `images.sort(key=SortKey)` by insertion: sorted by key, and holding exactly the images
   * given, as many times each.
   */
  function SortByKey(images: seq<Image>): (r: seq<Image>)
    ensures SortedByKey(r)
    ensures multiset(r) == multiset(images)
  {
    if images == [] then []
    else
      var rest := SortByKey(images[1..]);
      InsertSorted(images[0], rest);
      assert images == [images[0]] + images[1..];
      Insert(images[0], rest)
  }

  /** The images whose sort key is `key`. */
  function HasKey(key: String): Image -> bool {
    (im: Image) => SortKey(im) == key
  }

  /** Two prefixes of which one is empty can be put in either order. */
  lemma OneOfEmpty<T>(a: seq<T>, b: seq<T>, tail: seq<T>)
    requires a == [] || b == []
    ensures b + (a + tail) == a + (b + tail)
  {
    if a == [] {
      assert a + tail == tail;
    } else {
      assert b + tail == tail;
    }
  }

  /** Insertion past a smaller first image keeps that image in front, whatever the key. */
  lemma InsertPast(x: Image, images: seq<Image>, key: String)
    requires images != [] && !LessEq(SortKey(x), SortKey(images[0]))
    requires Filter(Insert(x, images[1..]), HasKey(key)) ==
               (if SortKey(x) == key then [x] else []) + Filter(images[1..], HasKey(key))
    ensures Filter(Insert(x, images), HasKey(key)) == (if SortKey(x) == key then [x] else []) + Filter(images, HasKey(key))
  {
    var keep := HasKey(key);
    var y := images[0];
    var fx: seq<Image> := if SortKey(x) == key then [x] else [];
    var fy: seq<Image> := if keep(y) then [y] else [];
    var tail := Filter(images[1..], keep);
    LessEqReflexive(SortKey(x));
    var ins := Insert(x, images[1..]);
    assert Insert(x, images) == [y] + ins;
    FilterCons(y, ins, keep);
    assert Filter(images, keep) == fy + tail;
    assert keep(y) <==> SortKey(y) == key;
    assert fx == [] || fy == [] by {
      if fx != [] {
        assert SortKey(y) != SortKey(x);
      }
    }
    OneOfEmpty(fx, fy, tail);
  }

  /** Insertion puts `x` in front of every image with the same key. */
  lemma {:induction false} InsertBeforeEqualKeys(x: Image, images: seq<Image>, key: String)
    ensures Filter(Insert(x, images), HasKey(key)) == (if SortKey(x) == key then [x] else []) + Filter(images, HasKey(key))
  {
    if images == [] || LessEq(SortKey(x), SortKey(images[0])) {
      FilterCons(x, images, HasKey(key));
    } else {
      InsertBeforeEqualKeys(x, images[1..], key);
      InsertPast(x, images, key);
    }
  }

  /** The sort is stable: images with the same key keep their relative order. */
  lemma {:induction false} SortByKeyStable(images: seq<Image>, key: String)
    ensures Filter(SortByKey(images), HasKey(key)) == Filter(images, HasKey(key))
  {
    if images != [] {
      SortByKeyStable(images[1..], key);
      InsertBeforeEqualKeys(images[0], SortByKey(images[1..]), key);
    }
  }

  /**
   * `list_registered_images` lists under one architecture exactly the images of that
   * architecture, each as often as in the input, sorted by `region + ' ' + location`.
   */
  lemma ArchListing(images: seq<Image>, arch: String)
    ensures SortedByKey(SortByKey(WithArch(images, arch)))
    ensures forall im :: multiset(SortByKey(WithArch(images, arch)))[im] ==
                           if im.architecture == arch then multiset(images)[im] else 0
    ensures forall im :: im in SortByKey(WithArch(images, arch)) <==> im in images && im.architecture == arch
  {
    var listed := SortByKey(WithArch(images, arch));
    forall im ensures im in listed <==> im in WithArch(images, arch) {
      assert im in listed <==> im in multiset(listed);
    }
  }
}
