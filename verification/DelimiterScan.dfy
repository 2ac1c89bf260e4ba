/** What the restart-at-zero search for CRLFCRLF finds: it is sound, and it meets the first
    delimiter exactly when the run of CRs in front of it has even length. */
module DelimiterScan {
  import opened Bytes
  import opened MessageBuffers

  /** SIP separates the header section from the body with an empty line. */
  const MESSAGE_DELIMITER: bytes := [CR, LF, CR, LF]

  ghost predicate DelimiterAt(s: bytes, i: nat) {
    i + 4 <= |s| && s[i..i + 4] == MESSAGE_DELIMITER
  }

  ghost predicate FirstDelimiterAt(s: bytes, i: nat) {
    DelimiterAt(s, i) && forall j: nat | j < i :: !DelimiterAt(s, j)
  }

  /** One comparison of the search. */
  function Step(matched: nat, c: byte): nat
    requires matched < 4
  {
    if c == MESSAGE_DELIMITER[matched] then matched + 1 else 0
  }

  /** Delimiter bytes matched after the first `k` bytes; 4 once a match is complete. */
  function Progress(s: bytes, k: nat): (m: nat)
    requires k <= |s|
    ensures m <= 4
  {
    if k == 0 then 0
    else
      var m := Progress(s, k - 1);
      if m == 4 then 4 else Step(m, s[k - 1])
  }

  /** The length of the run of CRs that ends just before position `k`. */
  function CrRun(s: bytes, k: nat): nat
    requires k <= |s|
  {
    if k == 0 || s[k - 1] != CR then 0 else 1 + CrRun(s, k - 1)
  }

  /** Where the search stops in `s`, continued at `k` with `m` bytes matched; zero if it does not. */
  function Hit(s: bytes, k: nat, m: nat): nat
    requires k <= |s| && m <= 4
    decreases |s| - k
  {
    if m == 4 then k
    else if k == |s| then 0
    else Hit(s, k + 1, Step(m, s[k]))
  }

  /** The bytes matched so far are the ones just read. */
  lemma {:induction false} ProgressIsSuffix(s: bytes, k: nat)
    requires k <= |s| && (k > 0 ==> Progress(s, k - 1) < 4)
    ensures Progress(s, k) <= k && s[k - Progress(s, k)..k] == MESSAGE_DELIMITER[..Progress(s, k)]
  {
    if k > 0 {
      if k > 1 && Progress(s, k - 2) == 4 {
        assert false;
      }
      ProgressIsSuffix(s, k - 1);
      var m := Progress(s, k - 1);
      if s[k - 1] == MESSAGE_DELIMITER[m] {
        assert s[k - 1 - m..k] == s[k - 1 - m..k - 1] + [s[k - 1]];
      }
    }
  }

  /** An odd number of matched bytes means an odd run of CRs just read. */
  lemma {:induction false} ProgressParity(s: bytes, k: nat)
    requires k <= |s| && Progress(s, k) < 4
    ensures Progress(s, k) % 2 == CrRun(s, k) % 2
  {
    if k > 0 {
      ProgressParity(s, k - 1);
    }
  }

  /** Reading on never undoes a completed match. */
  lemma {:induction false} ProgressStays(s: bytes, k: nat, n: nat)
    requires k <= n <= |s| && Progress(s, k) == 4
    ensures Progress(s, n) == 4
    decreases n - k
  {
    if k < n {
      ProgressStays(s, k + 1, n);
    }
  }

  /** `Hit` is the first position at which `Progress` is complete. */
  lemma {:induction false} HitIsFirst(s: bytes, k: nat)
    requires k <= |s| && (k > 0 ==> Progress(s, k - 1) < 4)
    ensures var h := Hit(s, k, Progress(s, k));
            if h == 0 then Progress(s, |s|) < 4
            else 4 <= h <= |s| && k <= h && Progress(s, h) == 4 && Progress(s, h - 1) < 4
    decreases |s| - k
  {
    if Progress(s, k) == 4 {
      ProgressIsSuffix(s, k);
    } else if k < |s| {
      HitIsFirst(s, k + 1);
    }
  }

  /** Soundness: what the search stops at ends in the delimiter, and nothing before it did. */
  lemma HitIsSound(s: bytes)
    ensures var h := Hit(s, 0, 0);
            h > 0 ==> 4 <= h <= |s| && DelimiterAt(s, h - 4)
  {
    HitIsFirst(s, 0);
    var h := Hit(s, 0, 0);
    if h > 0 {
      ProgressIsSuffix(s, h);
    }
  }

  /** Before the end of the first delimiter the search cannot stop. */
  lemma NoEarlyStop(s: bytes, i: nat, k: nat)
    requires FirstDelimiterAt(s, i) && k < i + 4
    ensures Progress(s, k) < 4
  {
    if Progress(s, k) == 4 {
      HitIsFirst(s, 0);
      var h := Hit(s, 0, 0);
      if h == 0 {
        ProgressStays(s, k, |s|);
      } else {
        if k < h {
          ProgressStays(s, k, h - 1);
        }
        HitIsSound(s);
      }
    }
  }

  lemma DelimiterBytes(s: bytes, i: nat)
    requires DelimiterAt(s, i)
    ensures s[i] == CR && s[i + 1] == LF && s[i + 2] == CR && s[i + 3] == LF
  {
    forall t | 0 <= t < 4 ensures s[i + t] == MESSAGE_DELIMITER[t] {
      assert s[i..i + 4][t] == s[i + t];
    }
    assert s[i + 2] == MESSAGE_DELIMITER[2] && s[i + 3] == MESSAGE_DELIMITER[3];
  }

  /** In front of the first delimiter nothing is matched, or only a CR that does not belong to it. */
  lemma ProgressBeforeFirst(s: bytes, i: nat)
    requires FirstDelimiterAt(s, i)
    ensures Progress(s, i) == 0 || Progress(s, i) % 2 == 1
  {
    NoEarlyStop(s, i, i);
    if i > 0 {
      NoEarlyStop(s, i, i - 1);
    }
    ProgressIsSuffix(s, i);
    if Progress(s, i) == 2 {
      EarlierDelimiter(s, i);
    }
  }

  lemma EarlierDelimiter(s: bytes, i: nat)
    requires DelimiterAt(s, i) && i >= 2 && s[i - 2..i] == MESSAGE_DELIMITER[..2]
    ensures DelimiterAt(s, i - 2)
  {
    assert s[i - 2..i + 2] == s[i - 2..i] + s[i..i + 4][..2];
  }

  /** Reading the first delimiter completes the match unless a CR was left over in front of it. */
  lemma ProgressOverFirst(s: bytes, i: nat)
    requires FirstDelimiterAt(s, i)
    ensures Progress(s, i + 4) == if CrRun(s, i) % 2 == 0 then 4 else 2
  {
    ProgressBeforeFirst(s, i);
    ProgressParity(s, i);
    DelimiterBytes(s, i);
    var m := Progress(s, i);
    var m1 := Step(m, s[i]);
    NoEarlyStop(s, i, i + 1);
    assert Progress(s, i + 1) == m1;
    NoEarlyStop(s, i, i + 2);
    assert Progress(s, i + 2) == Step(m1, s[i + 1]);
    NoEarlyStop(s, i, i + 3);
    assert Progress(s, i + 3) == Step(Progress(s, i + 2), s[i + 2]);
  }

  /** Exact completeness: the search stops at the end of the first delimiter if and only if the
      run of CRs in front of that delimiter has even length. */
  lemma HitIsFirstDelimiter(s: bytes, i: nat)
    requires FirstDelimiterAt(s, i)
    ensures Hit(s, 0, 0) == i + 4 <==> CrRun(s, i) % 2 == 0
  {
    assert i + 4 <= |s|;
    hide FirstDelimiterAt;
    ProgressOverFirst(s, i);
    HitIsFirst(s, 0);
    var h := Hit(s, 0, 0);
    if Progress(s, i + 4) == 4 {
      if h == 0 {
        ProgressStays(s, i + 4, |s|);
      } else if h < i + 4 {
        NoEarlyStop(s, i, h);
      } else if i + 4 < h {
        ProgressStays(s, i + 4, h - 1);
      }
    }
  }

  /** Text in which every CR is followed by LF, except perhaps a last one. */
  ghost predicate CrLfText(s: bytes) {
    forall i | 0 <= i < |s| - 1 && s[i] == CR :: s[i + 1] == LF
  }

  /** On CRLF text the search finds the first delimiter. */
  lemma HitOnCrLfText(s: bytes, i: nat)
    requires CrLfText(s) && FirstDelimiterAt(s, i)
    ensures Hit(s, 0, 0) == i + 4
  {
    assert s[i..i + 4][0] == CR;
    HitIsFirstDelimiter(s, i);
  }

  /** Text without a delimiter never stops the search. */
  lemma HitNeedsDelimiter(s: bytes)
    requires forall i: nat :: !DelimiterAt(s, i)
    ensures Hit(s, 0, 0) == 0
  {
    HitIsSound(s);
  }

  /** A text on which the search misses the only delimiter. */
  lemma MissedDelimiter()
    ensures var s := [CR, CR, LF, CR, LF];
            FirstDelimiterAt(s, 1) && Hit(s, 0, 0) == 0
  {
    var s := [CR, CR, LF, CR, LF];
    assert s[1..5] == MESSAGE_DELIMITER;
    assert s[0..4][1] == CR;
    HitIsFirstDelimiter(s, 1);
    HitIsSound(s);
    assert CrRun(s, 1) == 1;
    assert Hit(s, 0, 0) == Hit(s, 1, 1) == Hit(s, 2, 0) == Hit(s, 3, 0) == Hit(s, 4, 1) == Hit(s, 5, 2);
  }

  /** The search over the ring agrees with `Hit` on the stored bytes as long as it stays there. */
  lemma {:induction false} ScanIsHit(r: Ring, bufSize: nat, k: nat, m: nat)
    requires r.Valid() && k <= r.stored && m <= 4 && (k < bufSize || k == 0)
    ensures var h := Hit(r.Contents(), k, m);
            var c := Scan(r.cells, MESSAGE_DELIMITER, bufSize, k, m, k);
            if h > 0 then c == if h < bufSize || h == k then h else 0
            else m == 4 || c == 0 || c > r.stored
    decreases r.stored - k
  {
    if m < 4 {
      var c := r.cells[k];
      var m' := if c == MESSAGE_DELIMITER[m] then m + 1 else 0;
      if k == r.stored {
        ScanBounds(r.cells, bufSize, k, m, k);
      } else if k + 1 < bufSize {
        assert m' == Step(m, r.Contents()[k]);
        ScanIsHit(r, bufSize, k + 1, m');
      } else {
        HitBounds(r.Contents(), k + 1, m');
      }
    }
  }

  lemma {:induction false} ScanBounds(cells: bytes, bufSize: nat, p: nat, m: nat, count: nat)
    requires cells != [] && p <= |cells| && m <= 4
    ensures var c := Scan(cells, MESSAGE_DELIMITER, bufSize, p, m, count);
            c == 0 || (c >= count && (m < 4 ==> c > count))
    decreases bufSize - count
  {
    if m < 4 && count + 1 < bufSize {
      var at := if p == |cells| then 0 else p;
      var m' := if cells[at] == MESSAGE_DELIMITER[m] then m + 1 else 0;
      ScanBounds(cells, bufSize, at + 1, m', count + 1);
    }
  }

  lemma {:induction false} HitBounds(s: bytes, k: nat, m: nat)
    requires k <= |s| && m <= 4
    ensures var h := Hit(s, k, m);
            h == 0 || (h >= k && (m < 4 ==> h > k))
    decreases |s| - k
  {
    if m < 4 && k < |s| {
      HitBounds(s, k + 1, Step(m, s[k]));
    }
  }

  /** The number of cells the delimiter search of a pull looks at, zero if it finds nothing. */
  function Searched(r: Ring, bufSize: nat): nat
    requires r.Valid()
  {
    if r.stored < 4 then 0 else Scan(r.cells, MESSAGE_DELIMITER, bufSize, 0, 0, 0)
  }

  /** The search ran past the stored bytes into cells left over from earlier data. */
  predicate Stale(r: Ring, bufSize: nat)
    requires r.Valid()
  {
    Searched(r, bufSize) > r.stored
  }

  /** A pull whose search does not run past the stored bytes takes exactly what `Hit` says. */
  lemma PullIsHit(r: Ring, bufSize: nat)
    requires r.Valid() && !Stale(r, bufSize)
    ensures var h := Hit(r.Contents(), 0, 0);
            r.DelimitedCount(MESSAGE_DELIMITER, bufSize) == if h < bufSize then h else 0
  {
    if r.stored < 4 {
      HitIsSound(r.Contents());
    } else if bufSize > 0 {
      ScanIsHit(r, bufSize, 0, 0);
      HitBounds(r.Contents(), 0, 0);
    }
  }

  /** A pull whose search does run past the stored bytes takes all of them. */
  lemma StalePullTakesAll(r: Ring, bufSize: nat)
    requires r.Valid() && Stale(r, bufSize)
    ensures r.DelimitedCount(MESSAGE_DELIMITER, bufSize) == r.stored >= 4
    ensures Hit(r.Contents(), 0, 0) == 0
  {
    ScanIsHit(r, bufSize, 0, 0);
    HitBounds(r.Contents(), 0, 0);
    HitIsSound(r.Contents());
  }
}
