/** `Palmtree.IO.BuffetredTextReader`: a character reader with a lookahead
    cache of fixed size in front of a `TextReader`. `Read` takes the oldest
    cached character (shifting the cache left) or, with an empty cache, one
    from the underlying reader; `StartsWith` fills the cache and compares
    without consuming; `IsEndOfReader` fills the cache and reports whether
    nothing is left.

    The underlying reader is modelled by the characters it has not yet
    delivered: its `Peek` returns -1 exactly when none is left and its `Read`
    returns -1 only then. A reader whose `Peek` returns -1 while more input
    may still arrive (an interactive stream) is not modelled. */
module TextReaders {
  import opened Wrappers
  import opened Primitives

  function Min(x: int, y: int): int
  {
    if x <= y then x else y
  }

  /** s is a prefix of t. */
  predicate IsPrefix(s: string, t: string)
  {
    |s| <= |t| && t[..|s|] == s
  }

  class BufferedTextReader {
    const cache: array<char>
    var cacheLength: nat
    var endOfStream: bool
    /** The characters the underlying reader has not delivered yet. */
    var source: seq<char>

    /** The cache holds at least one cell and never more than it has, and
        the end of the stream is only ever recorded once the underlying
        reader is exhausted. */
    ghost predicate Valid()
      reads this
    {
      cache.Length >= 1 && cacheLength <= cache.Length && (endOfStream ==> source == [])
    }

    /** The text not yet read: the cached characters, then the rest of the
        underlying reader. */
    ghost function Pending(): string
      reads this, cache
      requires Valid()
    {
      cache[..cacheLength] + source
    }

    /** `new BuffetredTextReader(reader, cacheSize)` after the size check. */
    constructor (input: string, cacheSize: nat)
      requires cacheSize >= 1
      ensures Valid() && fresh(cache) && cache.Length == cacheSize
      ensures Pending() == input && !endOfStream
    {
      cache := new char[cacheSize](_ => ' ');
      cacheLength := 0;
      endOfStream := false;
      source := input;
    }

    /** `new BuffetredTextReader(reader, cacheSize)`: a cache size below 1 is
        an invalid argument. */
    static method Create(input: string, cacheSize: Int32) returns (r: Result<BufferedTextReader>)
      ensures r.Err? <==> cacheSize < 1
      ensures r.Err? ==> r.error == Argument
      ensures r.Ok? ==> fresh(r.value) && fresh(r.value.cache) && r.value.Valid()
                        && r.value.cache.Length == cacheSize && r.value.Pending() == input
    {
      if cacheSize < 1 {
        return Err(Argument);
      }
      var reader := new BufferedTextReader(input, cacheSize);
      return Ok(reader);
    }

    /** `Read()`: the next character, or none at the end of the text, in
        which case the end of the stream is recorded. */
    method Read() returns (c: Option<char>)
      requires Valid()
      modifies this, cache
      ensures Valid()
      ensures c.None? <==> old(Pending()) == []
      ensures c.Some? ==> c.value == old(Pending())[0] && Pending() == old(Pending())[1..]
                          && endOfStream == old(endOfStream)
      ensures c.None? ==> Pending() == [] && endOfStream
    {
      if cacheLength > 0 {
        ghost var was := Pending();
        var first := cache[0];
        forall i | 0 <= i < cacheLength - 1 {
          cache[i] := cache[i + 1];
        }
        cacheLength := cacheLength - 1;
        assert Pending() == was[1..];
        return Some(first);
      } else if endOfStream {
        return None;
      } else if source == [] {
        endOfStream := true;
        return None;
      } else {
        var first := source[0];
        source := source[1..];
        return Some(first);
      }
    }

    /** `FillCache()` as written: moves characters from the underlying
        reader into the cache until it is full or `Peek` finds nothing. It
        never records the end of the stream: a `Peek` of -1 only stops the
        loop. */
    method FillCacheAsWritten()
      requires Valid()
      modifies this, cache
      ensures Valid() && Pending() == old(Pending()) && endOfStream == old(endOfStream)
      ensures cacheLength == Min(cache.Length, |Pending()|)
    {
      while cacheLength < cache.Length
        invariant Valid() && Pending() == old(Pending()) && endOfStream == old(endOfStream)
        decreases cache.Length - cacheLength
      {
        if endOfStream {
          break;
        }
        if source == [] {
          // Peek() < 0
          break;
        }
        // Read() returns the character Peek() has seen.
        ghost var was := Pending();
        cache[cacheLength] := source[0];
        source := source[1..];
        cacheLength := cacheLength + 1;
        assert Pending() == was;
      }
    }

    /** `FillCache()` as intended: as written, except that with nothing
        cached it reads on when `Peek` finds nothing, so that the end of the
        stream is recorded once the text is exhausted. */
    method FillCache()
      requires Valid()
      modifies this, cache
      ensures Valid() && Pending() == old(Pending())
      ensures cacheLength == Min(cache.Length, |Pending()|)
      ensures old(endOfStream) ==> endOfStream
      ensures Pending() == [] ==> endOfStream
    {
      while cacheLength < cache.Length
        invariant Valid() && Pending() == old(Pending())
        invariant old(endOfStream) ==> endOfStream
        decreases cache.Length - cacheLength
      {
        if endOfStream {
          break;
        }
        if source == [] {
          if cacheLength > 0 {
            // Peek() < 0 with something cached: wait no longer.
            break;
          }
          // Read() returns -1: the text is exhausted.
          endOfStream := true;
          break;
        }
        ghost var was := Pending();
        cache[cacheLength] := source[0];
        source := source[1..];
        cacheLength := cacheLength + 1;
        assert Pending() == was;
      }
    }

    /** `IsEndOfReader` as written: after `FillCacheAsWritten`, nothing is
        cached and the end of the stream has been recorded. Once the text is
        exhausted it stays false until a `Read` has returned nothing. */
    method IsEndOfReaderAsWritten() returns (r: bool)
      requires Valid()
      modifies this, cache
      ensures Valid() && Pending() == old(Pending()) && endOfStream == old(endOfStream)
      ensures r <==> old(Pending()) == [] && old(endOfStream)
      ensures r ==> Pending() == []
    {
      FillCacheAsWritten();
      r := cacheLength <= 0 && endOfStream;
    }

    /** `IsEndOfReader`: true exactly when no character is left. */
    method IsEndOfReader() returns (r: bool)
      requires Valid()
      modifies this, cache
      ensures Valid() && Pending() == old(Pending())
      ensures r <==> Pending() == []
    {
      FillCache();
      r := cacheLength <= 0 && endOfStream;
    }

    /** `StartsWith(c)`: the next character is c; nothing is consumed. */
    method StartsWithChar(c: char) returns (r: bool)
      requires Valid()
      modifies this, cache
      ensures Valid() && Pending() == old(Pending())
      ensures r <==> Pending() != [] && Pending()[0] == c
    {
      FillCache();
      r := cacheLength > 0 && cache[0] == c;
    }

    /** `StartsWith(predicate)`: the predicate holds of the next character;
        nothing is consumed. */
    method StartsWithPredicate(matches: char -> bool) returns (r: bool)
      requires Valid()
      modifies this, cache
      ensures Valid() && Pending() == old(Pending())
      ensures r <==> Pending() != [] && matches(Pending()[0])
    {
      FillCache();
      r := cacheLength > 0 && matches(cache[0]);
    }

    /** `StartsWith(s)`: the unread text begins with s; nothing is consumed.
        A string longer than the cache is an invalid argument. */
    method StartsWithString(s: string) returns (r: Result<bool>)
      requires Valid()
      modifies this, cache
      ensures Valid() && Pending() == old(Pending())
      ensures r.Err? <==> |s| > cache.Length
      ensures r.Err? ==> r.error == Argument
      ensures r.Ok? ==> (r.value <==> IsPrefix(s, Pending()))
    {
      if |s| > cache.Length {
        return Err(Argument);
      }
      FillCache();
      if cacheLength < |s| {
        return Ok(false);
      }
      assert Pending()[..|s|] == cache[..|s|];
      var index := 0;
      while index < |s|
        invariant 0 <= index <= |s|
        invariant cache[..index] == s[..index]
      {
        if cache[index] != s[index] {
          return Ok(false);
        }
        index := index + 1;
      }
      assert cache[..|s|] == s;
      return Ok(true);
    }
  }
}
