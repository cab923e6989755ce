/** common_input.c, and the same loader in common.c (whose field is called
    `failed` where common_input.c says `load_error`): a codebook library
    named on the command line is read and deserialised at most once, its
    layout guessed from the `old` flag with one fall-back to the other
    layout, and its first result remembered. Reading the file
    (i_try_read_lib) is I/O and arrives as a parameter. */
module CommonInput {
  import opened Bytes
  import opened Wrappers
  import opened Errors
  import CB = CodebookLibrary

  /** What i_try_read_lib produced: the whole file, or its error code. */
  datatype FileRead = Contents(data: seq<byte>) | ReadFailed(code: int)

  /** i_try_read_lib's failures are I_IO_ERROR, I_BUFFER_ERROR and
      I_FILE_TRUNCATED, never 0. */
  predicate ReadValid(r: FileRead) {
    r.ReadFailed? ==> r.code in {I_IO_ERROR, I_BUFFER_ERROR, I_FILE_TRUNCATED}
  }

  /** The deserialiser the layout flag selects. */
  function Attempt(oldLayout: bool, data: seq<byte>, books: seq<seq<byte>>, count: nat): CB.Outcome {
    if oldLayout then CB.DeserializedDeprecated(Some(data), books, count)
    else CB.Deserialized(Some(data), books, count)
  }

  /** The fields of input_libraryT the loader reads and writes; `books` and
      `count` are the embedded codebook library. */
  datatype LibState = LibState(oldLayout: bool, loaded: bool, loadError: int, books: seq<seq<byte>>, count: nat)

  /** i_try_load_lib: deserialise with the layout `old` names; on
      corruption clear the library, flip `old` and try the other layout once.
      Corrupt again: the library is cleared and the answer is
      I_UNRECOGNIZED_DATA; CODEBOOK_ERROR becomes I_BUFFER_ERROR. */
  function TryLoad(s: LibState, data: seq<byte>): (r: (LibState, int))
    ensures r.1 in {I_SUCCESS, I_BUFFER_ERROR, I_UNRECOGNIZED_DATA}
    ensures r.0.loaded == s.loaded && r.0.loadError == s.loadError
    ensures r.0.oldLayout == (s.oldLayout != (Attempt(s.oldLayout, data, s.books, s.count).code == CB.Corrupt))
    ensures r.1 == I_UNRECOGNIZED_DATA ==> r.0.books == [] && r.0.count == 0
  {
    var first := Attempt(s.oldLayout, data, s.books, s.count);
    if first.code != CB.Corrupt then
      (s.(books := first.books, count := first.count), if first.code == CB.Error then I_BUFFER_ERROR else I_SUCCESS)
    else
      var second := Attempt(!s.oldLayout, data, [], 0);
      if second.code == CB.Corrupt then (s.(oldLayout := !s.oldLayout, books := [], count := 0), I_UNRECOGNIZED_DATA)
      else (s.(oldLayout := !s.oldLayout, books := second.books, count := second.count),
            if second.code == CB.Error then I_BUFFER_ERROR else I_SUCCESS)
  }

  /** input_library_load: a loaded library answers 0 and a failed one its
      first error, both without reading again; otherwise the file is read
      and deserialised, the result is kept, and `loaded` says whether it is
      0. */
  function LoadOutcome(s: LibState, read: FileRead): (r: (LibState, int))
    ensures s.loaded ==> r == (s, 0)
    ensures !s.loaded && s.loadError != 0 ==> r == (s, s.loadError)
    ensures !s.loaded && s.loadError == 0 ==> r.0.loadError == r.1 && r.0.loaded == (r.1 == 0)
    ensures read.ReadFailed? && !s.loaded && s.loadError == 0 ==> r == (s.(loadError := read.code, loaded := read.code == 0), read.code)
  {
    if s.loaded then (s, 0)
    else if s.loadError != 0 then (s, s.loadError)
    else match read
      case ReadFailed(code) => (s.(loadError := code, loaded := code == 0), code)
      case Contents(data) =>
        var t := TryLoad(s, data);
        (t.0.(loadError := t.1, loaded := t.1 == 0), t.1)
  }

  /** The loader's invariant: a loaded library has no error. */
  predicate Consistent(s: LibState) {
    s.loaded ==> s.loadError == 0
  }

  /** A second call answers what the first answered and changes nothing,
      whatever the file would now contain. */
  lemma LoadIsRemembered(s: LibState, first: FileRead, second: FileRead)
    requires Consistent(s) && ReadValid(first)
    ensures Consistent(LoadOutcome(s, first).0)
    ensures LoadOutcome(LoadOutcome(s, first).0, second) == LoadOutcome(s, first)
  {
  }

  /** The fall-back recovers a library written in the other layout: when
      the layout `old` names finds the data corrupt, and the data is a
      serialised library in the other layout, the library is loaded from
      it. */
  lemma FallBackRecovers(s: LibState, books: seq<seq<byte>>)
    requires 1 <= |books| && 4 * |books| + TotalSize(books) < U32
    requires Attempt(s.oldLayout, Layout(!s.oldLayout, books), s.books, s.count).code == CB.Corrupt
    ensures TryLoad(s, Layout(!s.oldLayout, books)) == (s.(oldLayout := !s.oldLayout, books := books, count := |books|), I_SUCCESS)
  {
    OtherLayoutReads(!s.oldLayout, books);
    RetrySucceeds(s, Layout(!s.oldLayout, books), CB.Outcome(CB.Success, books, |books|));
  }

  /** A serialised library read back into an empty one. */
  lemma OtherLayoutReads(oldLayout: bool, books: seq<seq<byte>>)
    requires 1 <= |books| && 4 * |books| + TotalSize(books) < U32
    ensures Attempt(oldLayout, Layout(oldLayout, books), [], 0) == CB.Outcome(CB.Success, books, |books|)
  {
    if oldLayout {
      CB.RoundTripDeprecated(books, [], 0);
      Fits32(0 + |books|);
    } else {
      CB.RoundTrip(books, [], 0);
    }
  }

  /** A corrupt first try and a good second one. */
  lemma RetrySucceeds(s: LibState, data: seq<byte>, o: CB.Outcome)
    requires Attempt(s.oldLayout, data, s.books, s.count).code == CB.Corrupt
    requires Attempt(!s.oldLayout, data, [], 0) == o && o.code == CB.Success
    ensures TryLoad(s, data) == (s.(oldLayout := !s.oldLayout, books := o.books, count := o.count), I_SUCCESS)
  {
  }

  /** A library in the layout `old` names loads on the first try (the
      deprecated reader counts on from the count already there, 0 for a
      fresh library). */
  lemma SameLayoutLoads(s: LibState, books: seq<seq<byte>>)
    requires 1 <= |books| && 4 * |books| + TotalSize(books) < U32
    ensures TryLoad(s, Layout(s.oldLayout, books))
      == (s.(books := books, count := if s.oldLayout then CB.Grown(s.count, |books|) else |books|), I_SUCCESS)
  {
    if s.oldLayout {
      CB.RoundTripDeprecated(books, s.books, s.count);
    } else {
      CB.RoundTrip(books, s.books, s.count);
    }
  }

  /** The bytes of a library in one layout or the other. */
  function Layout(oldLayout: bool, books: seq<seq<byte>>): seq<byte> {
    if oldLayout then CB.SerializedDeprecated(books) else CB.Serialized(books)
  }

  /** input_libraryT. */
  class InputLibrary {
    var path: string
    const library: CB.Library
    var loaded: bool
    var oldLayout: bool
    var loadError: int

    function State(): LibState
      reads this, library
    {
      LibState(oldLayout, loaded, loadError, library.codebooks, library.codebookCount)
    }

    constructor (path: string, lib: CB.Library)
      ensures this.path == path && library == lib
      ensures !loaded && !oldLayout && loadError == 0
    {
      this.path := path;
      library := lib;
      loaded := false;
      oldLayout := false;
      loadError := 0;
    }

    /** i_try_load_lib. */
    method TryLoadLib(data: seq<byte>) returns (err: int)
      requires library.codebookCount < U32
      modifies this, library
      ensures path == old(path)
      ensures (State(), err) == TryLoad(old(State()), data)
    {
      var code;
      if oldLayout {
        code := library.DeserializeDeprecated(Some(data));
      } else {
        code := library.Deserialize(Some(data));
      }
      if code == CB.Corrupt {
        library.Clear();
        oldLayout := !oldLayout;
        if oldLayout {
          code := library.DeserializeDeprecated(Some(data));
        } else {
          code := library.Deserialize(Some(data));
        }
      }
      if code == CB.Corrupt {
        library.Clear();
        err := I_UNRECOGNIZED_DATA;
      } else if code == CB.Error {
        err := I_BUFFER_ERROR;
      } else {
        err := I_SUCCESS;
      }
    }

    /** input_library_load; `read` is what reading the library's file
        gives, consulted only when the source reads it. */
    method Load(read: FileRead) returns (r: int)
      requires library.codebookCount < U32
      modifies this, library
      ensures path == old(path)
      ensures (State(), r) == LoadOutcome(old(State()), read)
    {
      if loaded {
        return 0;
      } else if loadError != 0 {
        return loadError;
      }
      match read {
        case ReadFailed(code) =>
          loadError := code;
        case Contents(data) =>
          loadError := TryLoadLib(data);
      }
      loaded := loadError == 0;
      return loadError;
    }
  }

  /** input_library_clear: a null library is left alone; otherwise the
      codebooks are released, the path deleted and every field zeroed. */
  method ClearLibrary(lib: InputLibrary?)
    modifies lib, if lib != null then {lib.library} else {}
    ensures lib != null ==> lib.State() == LibState(false, false, 0, [], 0) && lib.path == []
  {
    if lib != null {
      lib.library.Clear();
      lib.path := [];
      lib.loaded := false;
      lib.oldLayout := false;
      lib.loadError := 0;
    }
  }

  /** input_optionsT (common_input.h). */
  datatype Options = Options(libraryIndex: nat, logPriority: int, kind: nat, autoOgg: bool, inplaceOgg: bool,
    inplaceRegrain: bool, bankRecurse: bool, strippedHeaders: bool, logEnabled: bool, logColorEnabled: bool,
    logDebug: bool, dryRun: bool)

  /** All-zero options, as memset leaves them. */
  const NoOptions := Options(0, 0, 0, false, false, false, false, false, false, false, false, false)

  /** inputT. */
  class Input {
    var path: string
    var options: Options

    constructor (path: string, options: Options)
      ensures this.path == path && this.options == options
    {
      this.path := path;
      this.options := options;
    }
  }

  /** input_clear: a null input is left alone; otherwise its path is
      deleted and its options zeroed. */
  method ClearInput(input: Input?)
    modifies input
    ensures input != null ==> input.path == [] && input.options == NoOptions
  {
    if input != null {
      input.path := [];
      input.options := NoOptions;
    }
  }
}
