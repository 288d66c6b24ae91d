/**
 * The dashboard component's state slots and the handlers that replace them.
 *
 * `bookmarks` is the list slot that `setBookmarks` replaces wholesale: once
 * with the rows of the initial read, then once per change-feed event. `errors`
 * is the slot `setErrors` fills at the end of `validateForm`. The form inputs
 * and the `touched` flags are not part of this model.
 */
module Dashboard {

  import opened Wrappers
  import opened BookmarkList
  import opened Validation

  class Dashboard {
    var bookmarks: seq<Bookmark>
    var errors: FieldErrors

    /** The list the page shows never holds two entries with the same id. */
    ghost predicate Valid()
      reads this
    {
      UniqueIds(bookmarks)
    }

    /** `useState<any[]>([])` and `useState({ title: "", url: "" })`. */
    constructor ()
      ensures bookmarks == [] && errors == FieldErrors(NoError, NoError)
      ensures Valid()
    {
      bookmarks := [];
      errors := FieldErrors(NoError, NoError);
    }

    /**
     * `setBookmarks(data || [])` after the initial read: the rows read, newest
     * first as the store ordered them, or the empty list when the read gave none.
     */
    method LoadSnapshot(data: Option<seq<Bookmark>>)
      modifies this
      ensures bookmarks == Seed(data)
      ensures data.None? ==> bookmarks == []
      ensures data.Some? ==> bookmarks == data.value
      ensures errors == old(errors)
      ensures data.Some? && UniqueIds(data.value) ==> Valid()
      ensures data.None? ==> Valid()
    {
      bookmarks := Seed(data);
    }

    /**
     * The change-feed callback: hands the reducer for `e` to `setBookmarks`.
     * The list stays free of duplicate ids, so a DELETE of a present id drops
     * exactly the one entry carrying it; nothing but the list changes.
     */
    method OnChange(e: Event)
      modifies this
      ensures bookmarks == Apply(old(bookmarks), e)
      ensures old(Valid()) ==> Valid()
      ensures old(Valid()) && e.Deleted? && HasId(old(bookmarks), e.id) ==>
        |bookmarks| == |old(bookmarks)| - 1
        && exists k :: 0 <= k < |old(bookmarks)| && old(bookmarks)[k].id == e.id
             && bookmarks == old(bookmarks)[..k] + old(bookmarks)[k + 1..]
      ensures errors == old(errors)
    {
      if Valid() {
        ApplyPreservesUnique(bookmarks, e);
        if e.Deleted? && HasId(bookmarks, e.id) {
          var k :| 0 <= k < |bookmarks| && bookmarks[k].id == e.id;
          RemoveUniquePresent(bookmarks, k);
        }
      }
      bookmarks := Apply(bookmarks, e);
    }

    /**
     * `validateForm`: computes the two field messages, stores them with
     * `setErrors`, and reports whether the form may be submitted. The
     * bookmark list is untouched.
     */
    method ValidateForm(title: string, url: string, parses: string -> bool)
      returns (isValid: bool)
      modifies this
      ensures errors == FieldErrors(TitleError(title), UrlError(url, parses))
      ensures isValid <==> errors.title == NoError && errors.url == NoError
      ensures isValid <==> Utf16Length(Trim(title)) >= 3 && HasWebScheme(Lower(Trim(url))) && parses(Trim(url))
      ensures bookmarks == old(bookmarks)
    {
      var newErrors;
      newErrors, isValid := ValidateFields(title, url, parses);
      ValidIff(title, url, parses);
      errors := newErrors;
    }
  }
}
