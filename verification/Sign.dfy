/** Signs: a path and a digest in one string, separated by a NUL. */
module Signs {
  import opened Protocol

  function CreateSign(path: Path, digest: Bytes): Bytes {
    path + [0] + digest
  }

  /** Splits at the last NUL; a string without one is an exception. */
  function SplitSign(sign: Bytes): Option<(Path, Bytes)> {
    if sign == [] then None
    else
      var front, last := sign[..|sign| - 1], sign[|sign| - 1];
      if last == 0 then Some((front, []))
      else
        match SplitSign(front)
        case None => None
        case Some(pair) => Some((pair.0, pair.1 + [last]))
  }

  /** Splitting a string gives exactly the path and the NUL-free digest it was made of, and
      fails exactly on strings without a NUL. */
  lemma {:induction false} SplitSignExact(sign: Bytes, path: Path, digest: Bytes)
    ensures SplitSign(sign) == Some((path, digest)) <==> sign == CreateSign(path, digest) && 0 !in digest
    ensures SplitSign(sign).None? <==> 0 !in sign
  {
    if sign == [] {
    } else {
      var front, last := sign[..|sign| - 1], sign[|sign| - 1];
      assert sign == front + [last];
      if digest == [] {
        SplitSignExact(front, path, digest);
        assert CreateSign(path, digest)[..|path|] == path;
      } else {
        var d, b := digest[..|digest| - 1], digest[|digest| - 1];
        assert digest == d + [b];
        SplitSignExact(front, path, d);
        assert CreateSign(path, digest) == CreateSign(path, d) + [b];
      }
    }
  }

  /** The round trip of a sign succeeds for every path and exactly the NUL-free digests. */
  lemma SignRoundTrip(path: Path, digest: Bytes)
    ensures SplitSign(CreateSign(path, digest)) == Some((path, digest)) <==> 0 !in digest
  {
    SplitSignExact(CreateSign(path, digest), path, digest);
  }
}
