/**
 * What boto talks to: the EC2 image registry and reservations, and the S3 buckets, held as
 * in-memory collections. Only the calls EasyEC2's deletion protocol makes change them.
 */
module Remote {
  import opened Collections
  import opened PyStr
  import opened Resources
  import opened Storage

  /** The registry after `deregister_image(id)`: every image with that id is gone. */
  function WithoutImage(images: seq<Image>, id: String): (r: seq<Image>)
    ensures forall im :: im in r <==> im in images && im.id != id
  {
    Filter(images, (im: Image) => im.id != id)
  }

  class Cloud {
    /** The account whose images `owners=["self"]` selects. */
    const account: String
    var images: seq<Image>
    var reservations: seq<Reservation>
    var buckets: map<String, Bucket>

    ghost predicate Valid()
      reads this
    {
      forall name :: name in buckets ==> ValidBucket(buckets[name])
    }

    constructor (account: String, images: seq<Image>, reservations: seq<Reservation>, buckets: map<String, Bucket>)
      requires forall name :: name in buckets ==> ValidBucket(buckets[name])
      ensures Valid()
      ensures this.account == account && this.images == images
      ensures this.reservations == reservations && this.buckets == buckets
    {
      this.account := account;
      this.images := images;
      this.reservations := reservations;
      this.buckets := buckets;
    }

    /** `key.delete()` on a key object listed from one of the buckets. */
    method DeleteObject(obj: StorageObject)
      requires obj.bucket in buckets
      modifies this
      ensures buckets == old(buckets)[obj.bucket := Delete(old(buckets)[obj.bucket], obj.name)]
      ensures images == old(images) && reservations == old(reservations)
    {
      buckets := buckets[obj.bucket := Delete(buckets[obj.bucket], obj.name)];
    }

    /** `conn.deregister_image(id)`. */
    method DeregisterImage(id: String)
      requires Valid()
      modifies this
      ensures Valid()
      ensures images == WithoutImage(old(images), id)
      ensures buckets == old(buckets) && reservations == old(reservations)
    {
      images := WithoutImage(images, id);
    }
  }
}
