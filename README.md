# StarCluster EC2/S3 utilities: image handling and deletion, modelled in Dafny

This project models the logic in StarCluster's `starcluster/awsutils.py` that does more than
pass a call through to boto:

- **`EasyAWS`**: the connection that is authenticated on first use only.
- **`EasyEC2`**, the image side:
  - the memoised `registered_images` listing;
  - the id-shape check and first-match lookup of `get_registered_image`;
  - `get_image`;
  - `get_image_files`, which finds the bucket and key prefix from a manifest location;
  - the display name of `get_image_name`;
  - the per-architecture filter and sort of `list_registered_images`;
  - `get_all_instances`;
  - the two-stage deletion protocol `remove_image_files` / `remove_image`.

The remote services become in-memory state of a `Cloud` object:

- the image registry (`seq<Image>`);
- the reservations;
- the S3 buckets (`map<String, Bucket>`).

boto's reads become reads of that object's fields. Its two updates, deleting a key and
deregistering an image, become methods of that object.

A `Bucket` is its keys in listing order plus a per-key *lag*. The lag is the number of deletes
of a key that are acknowledged while the key is still listed; the next delete removes it. This
is the situation `remove_image_files`'s "recursive double check" is written for. With every lag
finite, each pass lowers the `Debt` measure (one per listed key plus its lag), so in the model
the recursion ends without a retry cap. The interpreter's own recursion limit is not modelled
(see "Left out"). With no lag at all, one pass is enough.

Python semantics are written out:

- `str.find`, `str.split(sep)[0]` and `[-1]`;
- `os.path.basename`;
- `str.startswith`;
- code-point string order (module `PyStr`).

What the deletion protocol prints or does is returned as a trace of `Action`s
(`Deleted`, `WouldDelete`, `Deregistered`, `WouldDeregister`) so that ordering can be stated.

Modules, in dependency order:

- `Wrappers`: `Option` and `Result`.
- `Collections`: list comprehensions with a condition, and distinctness.
- `PyStr`: the Python string operations above.
- `Locations`: AMI id shape; bucket, key prefix and display name from a location.
- `Resources`: images, instances, reservations; lookup, filters, flattening, sort.
- `Storage`: buckets as values; delete, purge, debt.
- `Remote`: the `Cloud` class.
- `Aws`: the `EasyAWS` class.
- `Ec2`: the `EasyEC2` class and the specification of the deletion protocol.
- `Scenarios`: concrete instances of the deletion protocol on a small cloud.

`EasyEC2` inherits from `EasyAWS` in the source. Here an `EasyEC2` holds its own `EasyAWS`
(`aws`) and the one of its `EasyS3` collaborator (`s3`), so that each connection's
authentication count can be stated.

## Model

| member | source | states |
|---|---|---|
| `Aws.EasyAWS.constructor` | starcluster/awsutils.py:19-30 | keeps the credentials and the authenticator; no connection is held and none has been made |
| `Aws.EasyAWS.Conn` | starcluster/awsutils.py:32-38 | the first read calls the authenticator on the credentials and keeps the result; later reads return the same connection without calling it; the authenticator is called at most once per object |
| `Ec2.EasyEC2.constructor` | starcluster/awsutils.py:42-49 | an EasyEC2 and its EasyS3 share the credentials, use the EC2 and S3 authenticators, hold no connection and no images |
| `Ec2.EasyEC2.RegisteredImages` | starcluster/awsutils.py:51-55 | returns the held list when caching is on and one is held, else the account's images freshly fetched; with caching on the images are fetched at most once, with it off on every read |
| `Ec2.EasyEC2.GetRegisteredImage` | starcluster/awsutils.py:57-62 | an id not starting with `ami` or not 12 long fails with the invalid-id error and leaves the object and its connection untouched; any other id gives the first registered image with that id, or none |
| `Ec2.FindById` | starcluster/awsutils.py:60-62 | the scan returns exactly the lookup result: the first image with the id, or none when no image has it |
| `Ec2.EasyEC2.GetImage` | starcluster/awsutils.py:237-241 | the first image in the whole registry with the id, or none |
| `Ec2.ImageFiles` | starcluster/awsutils.py:243-249 | fails for a missing image or a missing bucket; otherwise yields exactly the objects of the image's bucket whose key starts with the image's prefix |
| `Ec2.EasyEC2.GetImageFiles` | starcluster/awsutils.py:243-249 | returns exactly `ImageFiles` on the current registry and buckets |
| `Ec2.EasyEC2.GetAllInstances` | starcluster/awsutils.py:127-132 | returns the instances of each reservation, reservation by reservation, in order |
| `Ec2.EasyEC2.ListRegisteredImages` | starcluster/awsutils.py:159-166 | the two lists are the visible images of architecture `i386` and `x86_64`, each sorted by `region + ' ' + location` |
| `Ec2.BucketsAfterRemoval` | starcluster/awsutils.py:186-201 | after a removal all bucket names remain; a dry run or a missing image changes no bucket; other buckets are unchanged; a real removal leaves the image's bucket with exactly its keys outside the prefix |
| `Ec2.ImagesAfterRemoval` | starcluster/awsutils.py:214-224 | the registry changes only when the files were really removed, and then loses exactly the images with that id |
| `Ec2.DeletingPassUnder` | starcluster/awsutils.py:186-191 | a deleting pass over files listed under the prefix takes only deletions of keys under that prefix in that bucket |
| `Ec2.DeletePass` | starcluster/awsutils.py:186-201 | one deleting pass keeps the final purged state; if anything is still listed, the debt has gone down; with no lag nothing is left to list |
| `Ec2.PassThenRecheck` | starcluster/awsutils.py:186-201 | a pass followed by the double check ends in the state and trace the removal specification gives |
| `Ec2.EasyEC2.ProcessFiles` | starcluster/awsutils.py:186-191 | prints or deletes each listed file in order; a dry run leaves the buckets alone; a real pass applies the deletes in listing order; registry and reservations are unchanged |
| `Ec2.EasyEC2.Recheck` | starcluster/awsutils.py:193-201 | lists again; a dry run stops; a real run with keys left starts over until no key with the prefix remains, and a run that started with nothing listed takes no step |
| `Ec2.EasyEC2.RemoveFiles` | starcluster/awsutils.py:185-201 | the pass followed by the double check yields the removal's final buckets and steps |
| `Ec2.EasyEC2.RemoveImageFiles` | starcluster/awsutils.py:179-201 | a missing image leaves everything unchanged; a missing bucket raises; a dry run changes nothing and lists each file once; a real run deletes only keys under the prefix and removes every one of them; with no lag its steps are one deletion per listed file |
| `Ec2.EasyEC2.Deregister` | starcluster/awsutils.py:218-224 | a real run removes the image's id from the registry; a dry run only records that it would |
| `Ec2.EasyEC2.RemoveImage` | starcluster/awsutils.py:204-224 | `pretend` defaults to a dry run; a missing image: no file deleted, nothing deregistered, no steps; a missing bucket raises before deregistering; otherwise every file step comes before one final deregistration of the id, which is real only when not pretending |
| `Ec2.EasyEC2.RemoveImageAsWritten` | starcluster/awsutils.py:204-224 | as written: with `pretend` set (the default) and an existing image it raises the undefined-name error before touching any file or the registry and takes no step; otherwise it ends, changes the buckets and the registry, and takes the steps as `RemoveImage` does: none unless it finishes, then the file steps followed by one real deregistration |
| `Ec2.FileSteps` | starcluster/awsutils.py:186-191 | one pass over the listed files takes one step per file, in listing order: a print when pretending, a delete otherwise |
| `Ec2.RemovalOutcome` | starcluster/awsutils.py:179-201 | the removal logs a missing image exactly when no registered image has the id, finishes exactly when the image is found and its bucket exists, and otherwise raises the missing-bucket error for that image's bucket |
| `Ec2.RemovalSteps` | starcluster/awsutils.py:179-201 | a removal that does not finish takes no step; one that finishes only prints (dry run) or only deletes (real run) key objects of the image's bucket under its prefix, and a dry run prints only keys the bucket holds |
| `Remote.WithoutImage` | starcluster/awsutils.py:224 | the registry after deregistering holds exactly the images with another id |
| `Remote.Cloud.DeleteObject` | starcluster/awsutils.py:191 | deleting a listed key updates only that key's bucket, by `Delete` |
| `Remote.Cloud.DeregisterImage` | starcluster/awsutils.py:224 | removes the images with the id and touches no bucket or reservation |
| `Storage.Listing` | starcluster/awsutils.py:247 | the listing holds exactly the bucket's keys that start with the prefix |
| `Storage.Objects` | starcluster/awsutils.py:248 | one key object per listed key, in order, each naming the bucket |
| `Storage.ObjectsMembers` | starcluster/awsutils.py:248 | the key objects are exactly the bucket's objects named by a listed key |
| `Storage.Delete` | starcluster/awsutils.py:191 | a delete removes no other key and adds none; the deleted key is gone unless it still lags |
| `Storage.DeleteValid` | starcluster/awsutils.py:191 | a delete keeps the bucket's keys unique and its lag on listed keys only |
| `Storage.Purge` | starcluster/awsutils.py:195-201 | the state a real removal aims at: exactly the keys outside the prefix are left |
| `Storage.PurgeDelete` | starcluster/awsutils.py:191 | deleting a key under the prefix does not change that final state |
| `Storage.PurgeWhenNothingListed` | starcluster/awsutils.py:194-195 | when nothing is listed under the prefix, the bucket already is its purge |
| `Storage.DebtDelete` | starcluster/awsutils.py:199-201 | each delete of a listed key under the prefix lowers the debt by exactly one, so the recursion ends |
| `Storage.DebtZero` | starcluster/awsutils.py:195 | the debt is zero exactly when nothing is listed under the prefix |
| `Storage.DebtWithoutLag` | starcluster/awsutils.py:186-195 | with no lag the debt is the number of listed keys |
| `Storage.DeleteObjectsUnder` | starcluster/awsutils.py:186-191 | deleting distinct listed keys under the prefix one after another keeps the final state and lowers the debt by one per key |
| `Storage.DeleteListing` | starcluster/awsutils.py:186-191 | a pass over a prefix listing lowers the debt by the listing's length and keeps the final state |
| `Storage.ListingDistinct` | starcluster/awsutils.py:247 | a listing has no key twice |
| `Resources.FirstIndex` | starcluster/awsutils.py:60-62 | the index of the first image with the id, or none when no image has it |
| `Resources.Lookup` | starcluster/awsutils.py:60-62 | a found image is in the list and has the id; none is found exactly when no image has the id |
| `Resources.LookupIsFirstMatch` | starcluster/awsutils.py:60-62 | the image at the first index with the id is the one looked up |
| `Resources.LookupMissing` | starcluster/awsutils.py:60-62 | when no image has the id the lookup finds none |
| `Resources.OwnedBy` | starcluster/awsutils.py:54 | exactly the images owned by the account |
| `Resources.WithArch` | starcluster/awsutils.py:163 | exactly the images of the given architecture |
| `Resources.FlattenAppend` | starcluster/awsutils.py:130-131 | one more reservation extends the flat list by its instances |
| `Resources.FlattenMembers` | starcluster/awsutils.py:127-132 | an instance is in the flat list exactly when some reservation holds it |
| `Resources.Flatten` | starcluster/awsutils.py:127-132 | the flat list is as long as all reservations' instance counts together |
| `Resources.SortKey` | starcluster/awsutils.py:161-162 | the sort key is the region, one space, then the location |
| `Resources.Insert` | starcluster/awsutils.py:164 | insertion adds the element once and loses nothing |
| `Resources.InsertSorted` | starcluster/awsutils.py:164 | inserting into a sorted list keeps it sorted by key |
| `Resources.SortByKey` | starcluster/awsutils.py:164 | the sort yields a permutation of its input, ordered by `region + ' ' + location` |
| `Resources.InsertPast` | starcluster/awsutils.py:164 | the inductive step of stability: when the inserted image's key is above the first image's, and inserting into the rest keeps the images of any one key in order with the inserted one first among its key, then so does inserting into the whole list |
| `Resources.InsertBeforeEqualKeys` | starcluster/awsutils.py:164 | among the images with one key, an inserted image goes in front of those already there |
| `Resources.SortByKeyStable` | starcluster/awsutils.py:164 | the sort is stable: the images with any one key keep their input order, as Python's `list.sort` guarantees |
| `Resources.ArchListing` | starcluster/awsutils.py:163-166 | each architecture listing is sorted, holds each image of that architecture exactly as often as the registry does, and no other image |
| `Locations.ValidAmiId` | starcluster/awsutils.py:58 | an id is accepted exactly when it is 12 characters long and starts with `ami` |
| `Locations.BucketName` | starcluster/awsutils.py:245 | the bucket is a prefix of the location without `/`, and is followed by `/` unless it is all of it |
| `Locations.KeyPrefix` | starcluster/awsutils.py:247 | the key prefix starts the basename and holds neither `/` nor the manifest suffix; it is the whole basename when that has no manifest suffix, and otherwise is followed there by the first one |
| `Locations.SecondSegment` | starcluster/awsutils.py:118 | `location.split('/')[1]` is the text right after the bucket's `/`, up to the next `/` or the end |
| `Locations.ImageNameAt` | starcluster/awsutils.py:118 | the display name sits right after the bucket's `/`, holds no `/` and no manifest suffix, and is followed by the end, a `/` or a manifest suffix |
| `Locations.ImageName` | starcluster/awsutils.py:118 | the display name exists exactly when the location has a `/`; it is the text right after the bucket's `/`, without `/` or manifest suffix, and ends at the end, at a `/` or at a manifest suffix |
| `Locations.HeadBeforeManifest` | starcluster/awsutils.py:247 | cutting `N.manifest.xml` at the first manifest suffix gives back `N` when `N` does not hold it |
| `Locations.SplitAtOnlySlash` | starcluster/awsutils.py:245 | a path `B/R` with one `/` splits into `B` and `R`, and its basename is `R` |
| `Locations.WellFormedLocation` | starcluster/awsutils.py:245-247 | for `B/N.manifest.xml` the bucket is `B`, the key prefix is `N`, and the display name is `N` |
| `Locations.NameIsKeyPrefix` | starcluster/awsutils.py:118 | with exactly one `/` in the location, the display name is the key prefix |
| `PyStr.FindIsFirst` | starcluster/awsutils.py:245 | `find` returns an occurrence with none before it, and nothing exactly when there is none |
| `PyStr.FindAt` | starcluster/awsutils.py:245 | an occurrence with none before it is what `find` returns |
| `PyStr.Split` | starcluster/awsutils.py:245 | a split always has at least one part |
| `PyStr.SplitAtFirst` | starcluster/awsutils.py:245 | a split is the text before the first separator followed by the split of the rest |
| `PyStr.JoinSplit` | starcluster/awsutils.py:245 | joining the parts with the separator gives back the string |
| `PyStr.SplitPartsFree` | starcluster/awsutils.py:245 | no part holds the separator |
| `PyStr.HeadIsTextBeforeFirst` | starcluster/awsutils.py:245 | `split(sep)[0]` is the text before the first separator, with no separator starting anywhere inside it, or the whole string exactly when there is none |
| `PyStr.Basename` | starcluster/awsutils.py:247 | the basename is the suffix without `/` that is all of the path or follows a `/` |
| `PyStr.BasenameUnique` | starcluster/awsutils.py:247 | a path has only one such basename |
| `PyStr.LastPartIsBasename` | starcluster/awsutils.py:247 | the last part of a split on `/` is a basename of the path |
| `PyStr.BasenameIsLastPart` | starcluster/awsutils.py:247 | `os.path.basename(p)` equals `p.split('/')[-1]` |
| `PyStr.LessEqReflexive` | starcluster/awsutils.py:164 | every string is ordered before or at itself |
| `PyStr.LessEqTotal` | starcluster/awsutils.py:164 | any two strings are ordered one way or the other |
| `PyStr.LessEqTransitive` | starcluster/awsutils.py:164 | the string order is transitive |
| `Collections.Filter` | starcluster/awsutils.py:163 | a comprehension keeps exactly the elements that pass the condition, and is no longer than its input |
| `Collections.FilterCons` | starcluster/awsutils.py:163 | a comprehension decides on the first element, then goes on with the rest |
| `Collections.FilterMultiset` | starcluster/awsutils.py:163 | a comprehension keeps each passing element as often as the input holds it, and no failing one |
| `Collections.FilterAppend` | starcluster/awsutils.py:163 | a comprehension keeps the input order: over two lists it is the two comprehensions one after the other |
| `Scenarios.DeleteResult` | starcluster/awsutils.py:204-224 | on the sample cloud a real removal deletes the manifest and the part, then deregisters; only the unrelated key is left and the registry is empty |
| `Scenarios.DryRunResult` | starcluster/awsutils.py:204-224 | on the sample cloud the intended dry run lists both files, then says it would deregister, and changes nothing |

Some members are plain definitions and have no row; lemmas and the members that use them state their properties:

- `PyStr.Head` is `split(sep)[0]`;
- `PyStr.Last` is `split(sep)[-1]`;
- `PyStr.StartsWith` is `str.startswith`;
- `Storage.DeleteObjects` is the effect of the delete loop;
- `Ec2.Locate` and `Ec2.TargetOf` are the bucket and key prefix that `get_image_files` derives.

## Left out

- Logging and printing are not modelled. The deletion protocol's prints become the returned trace of steps. `list_all_instances`, `__list_images` and `list_image_files` only print.
- `Ec2.EasyEC2.ListRegisteredImages`: returns the two sorted lists instead of printing them with their counter, their display names and the total.
- The `print_timing` decorator on `remove_image` is not modelled, because timing is I/O.
- `register_image` is not part of this model; it delegates to `starcluster/hacks.py`, which is not part of this model.
- The boto calls that are passed straight through are not modelled: security groups, key pairs, zones, volumes, snapshots, `run_instances`, `get_instance` and `terminate_instances`. `get_running_instances` is a stub with an empty body.
- The `instances` and `keypair` properties are not modelled; they are declared without `self` and cannot run.
- The `EasyS3` helpers are not modelled: `bucket_exists`, `get_bucket_files`, `show_bucket_files`, `list_bucket` and `get_buckets`.
- `boto.connect_ec2` / `boto.connect_s3` are parameters: authenticator functions from credentials to an opaque connection handle.
- The `instance_ids` filter of `get_all_instances` is not modelled. The model covers the default call with no ids.
- boto raises `S3ResponseError` for a missing bucket. The model gives it as the `NoSuchBucket` error; no other remote failure is modelled.
- The unused `bucket = os.path.dirname(...)` in `remove_image_files` has no effect and is not modelled.
- `Storage.Delete`: a key's listing lag is a fixed, finite number of further deletes. Any other eventual-consistency behaviour of S3 is not modelled.
- `Ec2.EasyEC2.RemoveImageFiles`: every re-listing that still finds keys recurses, and the model lets the recursion run as deep as the debt requires. CPython stops at its recursion limit (about 1000 frames by default) with a `RuntimeError`, so a real run that needs about that many passes fails in the source. The model does not capture that failure.
- `Ec2.EasyEC2.RemoveImageFiles`: with lagging keys, the trace says only that every step deletes a key under the prefix. It does not give the exact number of re-listings.
- `Remote.Cloud.DeleteObject`: assumes the key object came from a bucket that exists; deleting from a bucket removed in the meantime is not modelled.

## Findings

| source | as written | input that shows it | evidently intended | confidence | as-written member | corrected member |
|---|---|---|---|---|---|---|
| starcluster/awsutils.py:209-210 | with `pretend` set, `remove_image` logs `imageid`, a name defined nowhere, so it raises `NameError` before any file handling | `remove_image("ami-1234abcd", pretend=True)` on a registry holding that image | log the requested `image_name`, then list the files and say it would deregister | not executed | `Ec2.EasyEC2.RemoveImageAsWritten` | `Ec2.EasyEC2.RemoveImage` |
