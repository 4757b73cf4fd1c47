/** `fileContainsBytes`: a substring search over a file read in pieces, with an overlap kept between them. */
module ChunkedSearch {
  import opened Common

  const CHUNK_BYTES: nat := 64 * 1024

  /** `haystack.indexOf(needle) !== -1`. */
  predicate Includes(haystack: Bytes, needle: Bytes) {
    exists i: nat | i <= |haystack| :: OccursAt(haystack, needle, i)
  }

  /** `buffer.copy(buffer, 0, start, end)`, which may overlap itself. */
  method CopyToFront(buffer: array<Byte>, start: nat, end: nat)
    requires start <= end <= buffer.Length
    modifies buffer
    ensures buffer[..end - start] == old(buffer[start..end])
  {
    forall i | 0 <= i < end - start { buffer[i] := buffer[start + i]; }
  }

  /**
   * `readSync` into the buffer: it throws when the buffer has no room for `limit` bytes at `offset`, and otherwise
   * delivers between nothing and `limit` bytes of what is left of the file.
   */
  method ReadInto(file: Bytes, position: nat, buffer: array<Byte>, offset: nat, limit: nat, granted: nat)
    returns (read: Result<nat>)
    requires position <= |file|
    modifies buffer
    ensures read.Rejected? <==> offset + limit > buffer.Length
    ensures read.Ok? ==> read.value <= limit && position + read.value <= |file|
    ensures read.Ok? && granted > 0 && limit > 0 && position < |file| ==> read.value > 0
    ensures read.Ok? ==>
      buffer[..offset + read.value] == old(buffer[..offset]) + file[position..position + read.value]
  {
    if offset + limit > buffer.Length { return Rejected; }
    var count := if granted <= limit then granted else limit;
    if position + count > |file| { count := |file| - position; }
    forall i | 0 <= i < count { buffer[offset + i] := file[position + i]; }
    return Ok(count);
  }

  lemma SubSlice(file: Bytes, low: nat, high: nat, i: nat, count: nat)
    requires low <= i && i + count <= high <= |file|
    ensures file[low..high][i - low..i - low + count] == file[i..i + count]
  {
    var a, b := file[low..high][i - low..i - low + count], file[i..i + count];
    forall k | 0 <= k < count ensures a[k] == b[k] {}
  }

  /** Nothing ends before `position`, and the overlap is as long as an occurrence across it could need. */
  ghost predicate Searched(file: Bytes, needle: Bytes, position: nat, overlap: nat) {
    && needle != [] && overlap <= position <= |file|
    && (overlap == |needle| - 1 || (overlap == position && position < |needle|))
    && forall i: nat | OccursAt(file, needle, i) :: i + |needle| > position
  }

  /** An occurrence that ends in the new piece lies inside the window of overlap and piece. */
  lemma WindowDecides(file: Bytes, needle: Bytes, position: nat, overlap: nat, read: nat)
    requires Searched(file, needle, position, overlap) && position + read <= |file|
    ensures var window := file[position - overlap..position + read];
            && (Includes(window, needle) ==> Contains(file, needle))
            && (!Includes(window, needle) ==>
                forall i: nat | OccursAt(file, needle, i) :: i + |needle| > position + read)
  {
    var low, window := position - overlap, file[position - overlap..position + read];
    if Includes(window, needle) {
      var i: nat :| i <= |window| && OccursAt(window, needle, i);
      SubSlice(file, low, position + read, low + i, |needle|);
      assert OccursAt(file, needle, low + i);
    } else {
      forall i: nat | OccursAt(file, needle, i) ensures i + |needle| > position + read {
        if i + |needle| <= position + read {
          SubSlice(file, low, position + read, i, |needle|);
          assert OccursAt(window, needle, i - low);
        }
      }
    }
  }

  lemma Adjacent(file: Bytes, a: nat, b: nat, c: nat)
    requires a <= b <= c <= |file|
    ensures file[a..b] + file[b..c] == file[a..c]
  {
  }

  lemma EndOfWindow(file: Bytes, window: Bytes, end: nat, count: nat)
    requires count <= |window| <= end <= |file| && window == file[end - |window|..end]
    ensures window[|window| - count..] == file[end - count..end]
  {
  }

  /** A window without the needle is searched, and the end of it is the overlap for the next one. */
  lemma StillSearched(file: Bytes, needle: Bytes, position: nat, overlap: nat, read: nat, next: nat)
    requires Searched(file, needle, position, overlap) && position + read <= |file|
    requires !Includes(file[position - overlap..position + read], needle)
    requires next == if |needle| - 1 <= overlap + read then |needle| - 1 else overlap + read
    ensures Searched(file, needle, position + read, next)
  {
    hide Includes, OccursAt;
    WindowDecides(file, needle, position, overlap, read);
  }

  /**
   * What a loop iteration does with the bytes that were read: one look at the window, and the overlap for the next
   * read.
   */
  method SearchWindow(file: Bytes, needle: Bytes, buffer: array<Byte>, position: nat, overlap: nat, read: nat)
    returns (found: bool, next: nat)
    requires Searched(file, needle, position, overlap) && position + read <= |file|
    requires overlap + read <= buffer.Length
    requires position >= overlap && buffer[..overlap + read] == file[position - overlap..position + read]
    modifies buffer
    ensures found ==> Contains(file, needle)
    ensures !found ==> Searched(file, needle, position + read, next) && next <= buffer.Length
    ensures !found ==> buffer[..next] == file[position + read - next..position + read]
  {
    assert needle != [] && overlap <= position;
    hide Includes, OccursAt, Contains, Searched;
    var total := overlap + read;
    if Includes(buffer[..total], needle) {
      WindowDecides(file, needle, position, overlap, read);
      return true, 0;
    }
    next := if |needle| - 1 <= total then |needle| - 1 else total;
    StillSearched(file, needle, position, overlap, read, next);
    EndOfWindow(file, buffer[..total], position + read, next);
    assert buffer[total - next..total] == buffer[..total][total - next..];
    CopyToFront(buffer, total - next, total);
    found := false;
  }

  /**
   * The search. `grants(k)` is how many bytes the system is willing to deliver on the k-th read. A positive answer is
   * always right; with reads that deliver something, so is a negative one. An empty needle is never found: the buffer
   * is then one byte short of the read, which throws, and the answer is no.
   */
  method FileContains(file: Bytes, needle: Bytes, grants: nat -> nat) returns (found: bool)
    ensures found ==> needle != [] && Contains(file, needle)
    ensures (forall k: nat :: grants(k) > 0) ==> (found <==> needle != [] && Contains(file, needle))
  {
    if |file| < |needle| {
      assert forall i: nat :: !OccursAt(file, needle, i);
      return false;
    }
    var buffer := new Byte[CHUNK_BYTES + |needle| - 1](_ => 0);
    var overlap: nat, position: nat, step: nat := 0, 0, 0;
    while position < |file|
      invariant overlap <= position <= |file| && overlap <= buffer.Length
      invariant needle != [] ==> Searched(file, needle, position, overlap)
      invariant needle == [] ==> position == 0
      invariant buffer[..overlap] == file[position - overlap..position]
    {
      var outcome := ReadInto(file, position, buffer, overlap, CHUNK_BYTES, grants(step));
      if outcome.Rejected? { return false; }
      var read := outcome.value;
      if read == 0 { return false; }
      Adjacent(file, position - overlap, position, position + read);
      var hit, next := SearchWindow(file, needle, buffer, position, overlap, read);
      if hit { return true; }
      position, overlap, step := position + read, next, step + 1;
    }
    return false;
  }
}
