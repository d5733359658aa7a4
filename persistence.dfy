/**
 * The persistence side of a download: the file name and "already exists" decision of
 * `get_image`, and `save` with `process_tags`, which write an image row, its tags and
 * its file. The database is a `Store` object whose fields are the tables; a transient
 * `OperationalError` is given up front as a sequence saying which attempts hit one.
 */
module Persistence {
  import opened Wrappers
  import opened Records
  import Utilities
  import UrlLib

  // ---------------------------------------------------------------- get_image

  /** `custom_name` counts only when it is given and non-empty (Python truthiness). */
  predicate HasCustomName(customName: Option<string>) {
    customName.Some? && customName.value != []
  }

  /**
   * The file name `get_image` gives an image: the custom name followed by the link's
   * extension, or else the last segment of the link's path. Either way the link is
   * parsed, and its `ValueError` is the failure.
   */
  function ChooseFilename(customName: Option<string>, link: string): (r: Result<string, string>)
    ensures r.Failure? <==> UrlLib.UrlParse(link, "").Failure?
    ensures !HasCustomName(customName) ==> r == Utilities.ParseFilename(link)
    ensures HasCustomName(customName) && r.Success? ==>
              r.value == customName.value + Utilities.ParseExtension(link).value
    ensures HasCustomName(customName) && r.Success? ==>
              var name, n := r.value, |customName.value|;
              |name| > n && name[..n] == customName.value && name[n] == '.' && '.' !in name[n + 1..]
  {
    if HasCustomName(customName) then
      match Utilities.ParseExtension(link)
      case Failure(e) => Failure(e)
      case Success(ext) =>
        var name := customName.value + ext;
        assert name[|customName.value|..] == ext;
        Success(name)
    else
      Utilities.ParseFilename(link)
  }

  /** The message `get_image` returns for an image whose file name is taken. */
  function ExistsMessage(downloaderText: string, url: string): string {
    downloaderText + ": Image (" + url + ") already exists"
  }

  /**
   * `get_image`, given what `ImageInfo.from_downloader` produced (an info, or the
   * message of the `ImageDownloaderException` it raised), the downloader's text, its
   * stripped `url` and its canonical URL, and the file names already in the database.
   * A failed fetch and a file name already stored (unless `redownload`) give an error
   * tuple carrying the canonical URL; otherwise the info comes back with its file name.
   * The `ValueError` of a link `urlparse` rejects is not caught: it is the `Failure`.
   */
  function GetImage(fetched: Result<ImageInfo, string>, downloaderText: string, url: string,
                    canonical: string, stored: set<string>, redownload: bool,
                    customName: Option<string>): (r: Result<Finished, string>)
    ensures r.Success? ==> !r.value.Other?
    ensures fetched.Failure? ==> r == Success(Failed(fetched.error, canonical))
    ensures r.Failure? <==> fetched.Success? && ChooseFilename(customName, fetched.value.link).Failure?
    ensures r.Success? && r.value.Info? <==>
              && fetched.Success? && ChooseFilename(customName, fetched.value.link).Success?
              && (redownload || ChooseFilename(customName, fetched.value.link).value !in stored)
    ensures r.Success? && r.value.Info? ==>
              && r.value.info == fetched.value.(filename := ChooseFilename(customName, fetched.value.link).value)
              && (!redownload ==> r.value.info.filename !in stored)
    ensures r.Success? && r.value.Failed? && fetched.Success? ==>
              r.value == Failed(ExistsMessage(downloaderText, url), canonical)
  {
    match fetched
    case Failure(e) => Success(Failed(e, canonical))
    case Success(info) =>
      match ChooseFilename(customName, info.link)
      case Failure(e) => Failure(e)
      case Success(filename) =>
        if !redownload && filename in stored then
          Success(Failed(ExistsMessage(downloaderText, url), canonical))
        else
          Success(Info(info.(filename := filename)))
  }

  /** Once the file name `get_image` chose is stored (as `save` stores it), fetching
      the same image again reports it as existing, and with `redownload` gives the same
      info back: a second run over the same input saves nothing new. */
  lemma FoundAfterSave(fetched: Result<ImageInfo, string>, downloaderText: string, url: string,
                       canonical: string, stored: set<string>, customName: Option<string>)
    requires var r := GetImage(fetched, downloaderText, url, canonical, stored, false, customName);
             r.Success? && r.value.Info?
    ensures var first := GetImage(fetched, downloaderText, url, canonical, stored, false, customName);
            var now := stored + {first.value.info.filename};
            && GetImage(fetched, downloaderText, url, canonical, now, false, customName)
                 == Success(Failed(ExistsMessage(downloaderText, url), canonical))
            && GetImage(fetched, downloaderText, url, canonical, now, true, customName) == first
  {
  }

  // ---------------------------------------------------------------- retries

  /** Attempt `k` (from 0) of a retried step raises `OperationalError`. */
  predicate Busy(busy: seq<bool>, k: nat) {
    k < |busy| && busy[k]
  }

  /** The first of `budget` attempts that does not raise `OperationalError`, if any. */
  function FreeAttempt(busy: seq<bool>, budget: nat): (r: Option<nat>)
    ensures r.Some? ==> r.value < budget && !Busy(busy, r.value)
    ensures r.Some? ==> forall j :: 0 <= j < r.value ==> Busy(busy, j)
    ensures r.None? <==> forall j :: 0 <= j < budget ==> Busy(busy, j)
    decreases budget
  {
    if budget == 0 then None
    else
      match FreeAttempt(busy, budget - 1)
      case Some(k) => Some(k)
      case None => if Busy(busy, budget - 1) then None else Some(budget - 1)
  }

  /** Fewer transient errors than the budget, then success: the step goes through on
      the attempt after them; as many as the budget: it is given up. */
  lemma {:induction false} RetryBound(busy: seq<bool>, budget: nat, k: nat)
    requires forall j :: 0 <= j < k ==> Busy(busy, j)
    requires !Busy(busy, k)
    ensures k < budget ==> FreeAttempt(busy, budget) == Some(k)
    ensures budget <= k ==> FreeAttempt(busy, budget) == None
    decreases budget
  {
    if budget > 0 {
      RetryBound(busy, budget - 1, k);
    }
  }

  // ---------------------------------------------------------------- the store

  /** A row of the `Image` table. The table has no parent column. */
  datatype ImageRow = ImageRow(group: string, filename: string, originalLink: string)

  /** How a call of `save` ends. */
  datatype SaveOutcome =
    | Skipped                               // a falsy `img_info`: nothing to do
    | GaveUp                                // "No more retries": every attempt hit OperationalError
    | MissingGroup                          // `find_group` raised DoesNotExist
    | MissingParent                         // `Image.get` on the parent's link raised DoesNotExist
    | Duplicate                             // IntegrityError: the file name is taken
    | Saved(image: nat, tagsApplied: bool)  // row, tags and file written

  /** `set(tags) - old_tags`, where `old_tags` are the stored tags among `tags`. */
  function NewTags(tags: seq<string>, stored: set<string>): (n: set<string>)
    ensures forall t :: t in n <==> t in tags && t !in stored
  {
    (set t | t in tags) - (set t | t in tags && t in stored)
  }

  /** After the new tags are inserted every tag of the list is stored, and the ones
      inserted were not stored before. */
  lemma NewTagsComplete(tags: seq<string>, stored: set<string>)
    ensures forall t :: t in tags ==> t in stored + NewTags(tags, stored)
    ensures stored !! NewTags(tags, stored)
    ensures NewTags(tags, stored) == {} <==> forall t :: t in tags ==> t in stored
  {
  }

  /** The database tables and the files on disk, as sets and sequences. */
  class Store {
    /** `ImageGroup.name` */
    var groups: set<string>
    /** the `Image` table; a row's id is its position */
    var images: seq<ImageRow>
    /** `Tag.tag` */
    var tags: set<string>
    /** `ImageTag` as (image id, tag) */
    var imageTags: set<(nat, string)>
    /** the files written, as (group, file name) */
    var files: set<(string, string)>

    /** File names are unique (`unique=True`) and every tag association names an
        existing image and a stored tag. */
    ghost predicate Valid()
      reads this
    {
      && (forall i, j :: 0 <= i < j < |images| ==> images[i].filename != images[j].filename)
      && (forall p :: p in imageTags ==> p.0 < |images| && p.1 in tags)
    }

    constructor (groups: set<string>)
      ensures Valid()
      ensures this.groups == groups && images == [] && tags == {} && imageTags == {} && files == {}
    {
      this.groups := groups;
      images := [];
      tags := {};
      imageTags := {};
      files := {};
    }

    /** The stored file names. */
    function Filenames(): (names: set<string>)
      reads this
      ensures forall f :: f in names <==> exists i :: 0 <= i < |images| && images[i].filename == f
    {
      set i | 0 <= i < |images| :: images[i].filename
    }

    /** `Image.get(Image.original_link == link)` finds a row. */
    predicate HasLink(link: string)
      reads this
    {
      exists i :: 0 <= i < |images| && images[i].originalLink == link
    }

    /**
     * `process_tags` for image `img`: insert the tags of the list not stored yet (only
     * when there are any), then `insert_tags` with up to 5 attempts, each replacing the
     * image's associations by the tags `tags_query` yields (`assoc`, left abstract:
     * tags of the list). After 5 failed attempts it gives up silently. `inserted` says
     * whether `insert_many` ran, `applied` whether an attempt went through.
     */
    method ProcessTags(img: nat, tagList: seq<string>, assoc: set<string>, busy: seq<bool>)
        returns (inserted: bool, applied: bool)
      requires Valid() && img < |images|
      requires forall t :: t in assoc ==> t in tagList
      modifies this
      ensures Valid()
      ensures groups == old(groups) && images == old(images) && files == old(files)
      ensures tags == old(tags) + NewTags(tagList, old(tags))
      ensures inserted <==> NewTags(tagList, old(tags)) != {}
      ensures applied <==> FreeAttempt(busy, 5).Some?
      ensures applied ==>
                imageTags == (set p | p in old(imageTags) && p.0 != img) + (set t | t in assoc :: (img, t))
      ensures !applied ==> imageTags == old(imageTags)
    {
      var newTags := NewTags(tagList, tags);
      inserted := newTags != {};
      if inserted {
        tags := tags + newTags;
      }
      NewTagsComplete(tagList, old(tags));
      var retries := 5;
      applied := false;
      while retries > 0 && !applied
        invariant 0 <= retries <= 5
        invariant !applied ==> forall j :: 0 <= j < 5 - retries ==> Busy(busy, j)
        invariant applied ==> retries < 5 && !Busy(busy, 4 - retries)
        invariant applied ==> forall j :: 0 <= j < 4 - retries ==> Busy(busy, j)
      {
        // an attempt that hits OperationalError is rolled back and tried again
        applied := !Busy(busy, 5 - retries);
        retries := retries - 1;
      }
      if applied {
        imageTags := (set p | p in imageTags && p.0 != img) + (set t | t in assoc :: (img, t));
      }
    }

    /**
     * One attempt of `save` that does not hit `OperationalError`: look up the group and
     * the parent image (either missing raises DoesNotExist, which `save` does not
     * catch), then create the row; a taken file name is an IntegrityError that ends
     * the call with nothing written. A created row is followed by `process_tags` and
     * the file write.
     */
    method Attempt(img: ImageInfo, tagBusy: seq<bool>, assoc: set<string>) returns (outcome: SaveOutcome)
      requires Valid()
      requires forall t :: t in assoc ==> t in img.tags
      modifies this
      ensures Valid() && groups == old(groups)
      ensures outcome != Skipped && outcome != GaveUp
      ensures outcome == MissingGroup <==> img.group !in old(groups)
      ensures outcome == MissingParent <==>
                img.group in old(groups) && img.parent.Some? && !old(HasLink(img.parent.value.url))
      ensures outcome == Duplicate <==>
                img.group in old(groups) && (img.parent.Some? ==> old(HasLink(img.parent.value.url)))
                && img.filename in old(Filenames())
      ensures !outcome.Saved? ==> unchanged(this)
      ensures outcome.Saved? ==>
                && outcome.image == |old(images)|
                && images == old(images) + [ImageRow(img.group, img.filename, img.originalLink)]
                && Filenames() == old(Filenames()) + {img.filename}
                && files == old(files) + {(img.group, img.filename)}
                && tags == old(tags) + NewTags(img.tags, old(tags))
                && (outcome.tagsApplied <==> FreeAttempt(tagBusy, 5).Some?)
                && (outcome.tagsApplied ==>
                      imageTags == old(imageTags) + (set t | t in assoc :: (outcome.image, t)))
                && (!outcome.tagsApplied ==> imageTags == old(imageTags))
    {
      if img.group !in groups {
        return MissingGroup;
      }
      if img.parent.Some? && !HasLink(img.parent.value.url) {
        return MissingParent;
      }
      if img.filename in Filenames() {
        // "This ... is duplicated"
        return Duplicate;
      }
      var id := |images|;
      images := images + [ImageRow(img.group, img.filename, img.originalLink)];
      assert forall p :: p in imageTags ==> p.0 != id;
      var _, applied := ProcessTags(id, img.tags, assoc, tagBusy);
      files := files + {(img.group, img.filename)};
      assert images == old(images) + [ImageRow(img.group, img.filename, img.originalLink)];
      assert Filenames() == old(Filenames()) + {img.filename} by {
        forall f ensures f in Filenames() <==> f in old(Filenames()) + {img.filename} {
          if f == img.filename {
            assert images[|old(images)|].filename == f;
          }
          if f in old(Filenames()) {
            var i :| 0 <= i < |old(images)| && old(images)[i].filename == f;
            assert images[i].filename == f;
          }
        }
      }
      return Saved(id, applied);
    }

    /**
     * `save`: up to 3 attempts, each of which may hit `OperationalError` and start over;
     * the first one that does not is `Attempt`. When all 3 hit it, `save` gives up
     * ("No more retries") with nothing written.
     */
    method Save(info: Option<ImageInfo>, busy: seq<bool>, tagBusy: seq<bool>, assoc: set<string>)
        returns (outcome: SaveOutcome, attempts: nat)
      requires Valid()
      requires info.Some? ==> forall t :: t in assoc ==> t in info.value.tags
      modifies this
      ensures Valid()
      ensures attempts <= 3 && groups == old(groups)
      ensures info.None? ==> outcome == Skipped && attempts == 0
      ensures info.Some? && FreeAttempt(busy, 3).None? ==> outcome == GaveUp && attempts == 3
      ensures info.Some? && FreeAttempt(busy, 3).Some? ==> attempts == FreeAttempt(busy, 3).value + 1
      ensures outcome == GaveUp <==> info.Some? && FreeAttempt(busy, 3).None?
      ensures outcome == MissingGroup <==>
                info.Some? && FreeAttempt(busy, 3).Some? && info.value.group !in old(groups)
      ensures outcome == MissingParent <==>
                info.Some? && FreeAttempt(busy, 3).Some? && info.value.group in old(groups)
                && info.value.parent.Some? && !old(HasLink(info.value.parent.value.url))
      ensures outcome == Duplicate <==>
                info.Some? && FreeAttempt(busy, 3).Some? && info.value.group in old(groups)
                && (info.value.parent.Some? ==> old(HasLink(info.value.parent.value.url)))
                && info.value.filename in old(Filenames())
      ensures outcome.Saved? <==>
                info.Some? && FreeAttempt(busy, 3).Some? && info.value.group in old(groups)
                && (info.value.parent.Some? ==> old(HasLink(info.value.parent.value.url)))
                && info.value.filename !in old(Filenames())
      ensures !outcome.Saved? ==> unchanged(this)
      ensures outcome.Saved? ==>
                var i := info.value;
                && outcome.image == |old(images)|
                && images == old(images) + [ImageRow(i.group, i.filename, i.originalLink)]
                && Filenames() == old(Filenames()) + {i.filename}
                && files == old(files) + {(i.group, i.filename)}
                && tags == old(tags) + NewTags(i.tags, old(tags))
                && (outcome.tagsApplied <==> FreeAttempt(tagBusy, 5).Some?)
                && (outcome.tagsApplied ==>
                      imageTags == old(imageTags) + (set t | t in assoc :: (outcome.image, t)))
                && (!outcome.tagsApplied ==> imageTags == old(imageTags))
    {
      attempts := 0;
      if info.None? {
        return Skipped, 0;
      }
      var retries := 3;
      while retries > 0
        invariant 0 <= retries <= 3 && attempts == 3 - retries
        invariant forall j :: 0 <= j < attempts ==> Busy(busy, j)
      {
        attempts := attempts + 1;
        if Busy(busy, attempts - 1) {
          // "Disk error, retrying..."
          retries := retries - 1;
          continue;
        }
        RetryBound(busy, 3, attempts - 1);
        outcome := Attempt(info.value, tagBusy, assoc);
        return;
      }
      // "No more retries"
      outcome := GaveUp;
    }
  }
}
