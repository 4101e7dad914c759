/** The resolver (do_request): the document root and the URL are copied into
    the fixed path buffer m_real_file, and the answer stat() gives for that
    path decides the outcome. stat() itself is an input: the model is given
    its answer for the path. */
module Resolver {
  import opened HttpTypes
  import opened CStrings

  /** doc_root: the directory every URL is resolved under. */
  const DOC_ROOT: seq<char> := "/home/bochen"

  /** strncpy's bound: the bytes left in m_real_file after the root, less
      one for the terminator. */
  const URL_ROOM: int := FILENAME_LEN - |DOC_ROOT| - 1

  /** S_IROTH, S_IFMT and S_IFDIR of <sys/stat.h>. */
  const S_IROTH: bv32 := 0x4
  const S_IFMT: bv32 := 0xF000
  const S_IFDIR: bv32 := 0x4000

  function Nuls(n: nat): (z: seq<char>)
    ensures |z| == n && forall k :: 0 <= k < n ==> z[k] == NUL
  {
    if n == 0 then [] else Nuls(n - 1) + [NUL]
  }


  /** m_real_file after strcpy(m_real_file, doc_root) and
      strncpy(m_real_file + strlen(doc_root), url, URL_ROOM): the root,
      then at most URL_ROOM bytes of the URL, then NULs up to the last byte,
      which neither call touches. */
  function RealFileBuffer(prev: seq<char>, url: seq<char>): (b: seq<char>)
    requires |prev| == FILENAME_LEN
    ensures |b| == FILENAME_LEN && b[FILENAME_LEN - 1] == prev[FILENAME_LEN - 1]
  {
    var k := Min(|url|, URL_ROOM);
    DOC_ROOT + url[..k] + Nuls(URL_ROOM - k) + prev[FILENAME_LEN - 1..]
  }

  /** The path handed to stat() is the root followed by the URL, cut to
      URL_ROOM bytes, and always fits m_real_file with its terminator, as
      long as the last byte of the buffer is still the NUL init() left
      there. */
  lemma RealFilePath(prev: seq<char>, url: seq<char>)
    requires |prev| == FILENAME_LEN && prev[FILENAME_LEN - 1] == NUL && NUL !in url
    ensures var path := CString(RealFileBuffer(prev, url), 0);
      && path == DOC_ROOT + url[..Min(|url|, URL_ROOM)]
      && |path| < FILENAME_LEN
      && (|url| <= URL_ROOM ==> path == DOC_ROOT + url)
  {
    var b := RealFileBuffer(prev, url);
    var k := Min(|url|, URL_ROOM);
    var path := DOC_ROOT + url[..k];
    assert b[..|path|] == path;
    assert b[|path|] == NUL;
    assert NUL !in path by {
      forall j | 0 <= j < |path| ensures path[j] != NUL {
        if j >= |DOC_ROOT| {
          assert path[j] == url[j - |DOC_ROOT|];
        }
      }
    }
    CStringUnique(b, 0, path);
    if |url| <= URL_ROOM {
      assert url[..k] == url;
    }
  }

  /** Bit 2 of the mode, the permission "others may read". */
  predicate OthersMayRead(mode: bv32) {
    (mode >> 2) & 1 == 1
  }

  /** Bits 12 to 15 of the mode, the file type, hold 4, a directory. */
  predicate IsDirectory(mode: bv32) {
    (mode >> 12) & 0xF == 4
  }

  /** do_request's decision on stat()'s answer: no file is NO_RESOURCE; no
      others-read bit is FORBIDDEN_REQUEST, tested before the file type; a
      directory is BAD_REQUEST; anything else is served. */
  function Classify(st: StatInfo): (c: HttpCode)
    ensures c == NoResource || c == ForbiddenRequest || c == BadRequest || c == FileRequest
  {
    match st
    case Missing => NoResource
    case Found(mode, _) =>
      if mode & S_IROTH == 0 then ForbiddenRequest
      else if mode & S_IFMT == S_IFDIR then BadRequest
      else FileRequest
  }

  lemma ReadBit(mode: bv32)
    ensures (mode & S_IROTH != 0) <==> OthersMayRead(mode)
  {
  }

  lemma DirectoryField(mode: bv32)
    ensures (mode & S_IFMT == S_IFDIR) <==> IsDirectory(mode)
  {
  }

  /** Each outcome of do_request, in terms of the permission bit and the
      file type: an unreadable directory is FORBIDDEN_REQUEST, and only a
      readable non-directory is served. */
  lemma ClassifyOutcomes(st: StatInfo)
    ensures Classify(st) == NoResource <==> st.Missing?
    ensures Classify(st) == ForbiddenRequest <==> st.Found? && !OthersMayRead(st.mode)
    ensures Classify(st) == BadRequest <==>
      st.Found? && OthersMayRead(st.mode) && IsDirectory(st.mode)
    ensures Classify(st) == FileRequest <==>
      st.Found? && OthersMayRead(st.mode) && !IsDirectory(st.mode)
  {
    if st.Found? {
      ReadBit(st.mode);
      DirectoryField(st.mode);
    }
  }
}
