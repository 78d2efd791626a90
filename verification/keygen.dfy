/**
 Shape of the license keys produced by `generate_license_key` (main.py).

 The characters come from `random.choice`; here the random source is an
 oracle `source` such that the n-th call of `random.choice(chars)` made by one
 key generation returns `Alphabet[source(n)]`.  Everything else about the key
 (its length, where the separators are, which draw lands where) is
 deterministic and is stated below.
 */
module KeyGen {

  /** `string.ascii_uppercase + string.digits` */
  const Alphabet: string := "ABCDEFGHIJKLMNOPQRSTUVWXYZ0123456789"

  /** `group_size` of the grouped layout */
  const GroupSize: nat := 4

  /** The string `'-'.join` puts between groups */
  const Separator: char := '-'

  /** Result of one `random.choice(chars)`: the position of the chosen character. */
  type Draw = d: nat | d < |Alphabet|

  /** The random source: draw number n picks `Alphabet[source(n)]`. */
  type Source = nat -> Draw

  /** Upper-case ASCII letter or decimal digit, stated without the alphabet string. */
  predicate IsKeyChar(c: char)
  {
    'A' <= c <= 'Z' || '0' <= c <= '9'
  }

  /** The alphabet spelled out: the 26 letters in order, then the 10 digits. */
  lemma AlphabetAt(i: nat)
    requires i < |Alphabet|
    ensures Alphabet[i] == if i < 26 then ('A' as int + i) as char else ('0' as int + i - 26) as char
  {
  }

  /** The alphabet is exactly the key characters; in particular it has no separator. */
  lemma AlphabetIsKeyChars(c: char)
    ensures c in Alphabet <==> IsKeyChar(c)
  {
    if c in Alphabet {
      var i :| 0 <= i < |Alphabet| && Alphabet[i] == c;
      AlphabetAt(i);
    }
    if 'A' <= c <= 'Z' {
      AlphabetAt(c as int - 'A' as int);
    } else if '0' <= c <= '9' {
      AlphabetAt(26 + c as int - '0' as int);
    }
  }

  /** `n` consecutive draws starting at draw number `start`. */
  function Chunk(source: Source, start: nat, n: nat): string
  {
    seq(n, i requires 0 <= i < n => Alphabet[source(start + i)])
  }

  /** Every character a draw can produce is a key character. */
  lemma ChunkIsKeyChars(source: Source, start: nat, n: nat)
    ensures forall i :: 0 <= i < n ==> IsKeyChar(Chunk(source, start, n)[i])
  {
    forall i | 0 <= i < n
      ensures IsKeyChar(Chunk(source, start, n)[i])
    {
      AlphabetIsKeyChars(Chunk(source, start, n)[i]);
    }
  }

  /** Two adjacent runs of draws form one longer run. */
  lemma ChunkSplit(source: Source, start: nat, m: nat, n: nat)
    ensures Chunk(source, start, m + n) == Chunk(source, start, m) + Chunk(source, start + m, n)
  {
  }

  /** `length // group_size`, fed to `range`: a negative count yields no groups. */
  function NumGroups(length: int): nat
  {
    if length <= 0 then 0 else length / GroupSize
  }

  /** The `n` groups of the grouped layout; group g consumes draws 4g .. 4g+3. */
  function Groups(source: Source, n: nat): seq<string>
  {
    seq(n, g requires 0 <= g < n => Chunk(source, GroupSize * g, GroupSize))
  }

  /** Python's `'-'.join(parts)`. */
  function Join(parts: seq<string>): string
  {
    if |parts| == 0 then ""
    else if |parts| == 1 then parts[0]
    else Join(parts[..|parts| - 1]) + [Separator] + parts[|parts| - 1]
  }

  /**
   The key `generate_license_key(grouped, length)` returns for the random
   source `source`: `length` draws in a row, or `length // 4` groups of four
   draws joined by the separator.
   */
  function KeyOf(source: Source, grouped: bool, length: int): string
  {
    if !grouped then Chunk(source, 0, if length < 0 then 0 else length)
    else Join(Groups(source, NumGroups(length)))
  }

  /** Length of a grouped key made of `n` groups: four characters per group, one separator between groups. */
  function GroupedLength(n: nat): nat
  {
    if n == 0 then 0 else (GroupSize + 1) * n - 1
  }

  /**
   The grouped layout stated position by position, without `Join`:
   separators exactly at the positions 4, 9, 14, ... and key characters elsewhere.
   */
  predicate IsGroupedKey(key: string, n: nat)
  {
    && |key| == GroupedLength(n)
    && (forall i :: 0 <= i < |key| ==> (key[i] == Separator <==> i % 5 == 4))
    && (forall i :: 0 <= i < |key| && key[i] != Separator ==> IsKeyChar(key[i]))
  }

  /** The ungrouped layout: exactly `length` key characters, none of them a separator. */
  predicate IsUngroupedKey(key: string, length: int)
  {
    && |key| == (if length < 0 then 0 else length)
    && (forall i :: 0 <= i < |key| ==> IsKeyChar(key[i]) && key[i] != Separator)
  }

  /** Joining groups of four: the separators fall at every fifth position, each group's characters between them. */
  lemma {:induction false} JoinLayout(parts: seq<string>)
    requires forall p :: 0 <= p < |parts| ==> |parts[p]| == GroupSize
    ensures |Join(parts)| == GroupedLength(|parts|)
    ensures forall i :: 0 <= i < |Join(parts)| ==>
              Join(parts)[i] == if i % 5 == 4 then Separator else parts[i / 5][i % 5]
  {
    var n := |parts|;
    if n >= 2 {
      var front := parts[..n - 1];
      JoinLayout(front);
      var j := Join(parts);
      assert j == Join(front) + [Separator] + parts[n - 1];
      forall i | 0 <= i < |j|
        ensures j[i] == if i % 5 == 4 then Separator else parts[i / 5][i % 5]
      {
        if i < |Join(front)| {
          assert j[i] == Join(front)[i];
          if i % 5 != 4 {
            assert parts[i / 5] == front[i / 5];
          }
        } else if i == |Join(front)| {
          assert j[i] == Separator;
        } else {
          assert j[i] == parts[n - 1][i - 5 * (n - 1)];
        }
      }
    }
  }

  /** One position of a grouped key: a separator, or the draw that position consumes. */
  lemma GroupedKeyAt(source: Source, length: int, i: nat)
    requires i < |KeyOf(source, true, length)|
    ensures KeyOf(source, true, length)[i] ==
              if i % 5 == 4 then Separator else Alphabet[source(GroupSize * (i / 5) + i % 5)]
  {
    var gs := Groups(source, NumGroups(length));
    assert KeyOf(source, true, length) == Join(gs);
    JoinLayout(gs);
    if i % 5 != 4 {
      var g := i / 5;
      assert 0 <= g < |gs|;
      assert gs[g] == Chunk(source, GroupSize * g, GroupSize);
    }
  }

  /**
   Layout of a grouped key: `length // 4` groups, separators at every fifth
   position and nowhere else, and at every other position the draw that
   position consumes (draw 4g + c for character c of group g).
   */
  lemma GroupedKeyLayout(source: Source, length: int)
    ensures IsGroupedKey(KeyOf(source, true, length), NumGroups(length))
    ensures forall i :: 0 <= i < |KeyOf(source, true, length)| && i % 5 != 4 ==>
              KeyOf(source, true, length)[i] == Alphabet[source(GroupSize * (i / 5) + i % 5)]
  {
    var key := KeyOf(source, true, length);
    var gs := Groups(source, NumGroups(length));
    assert key == Join(gs);
    JoinLayout(gs);
    AlphabetIsKeyChars(Separator);
    forall i | 0 <= i < |key|
      ensures key[i] == Separator <==> i % 5 == 4
      ensures key[i] != Separator ==> IsKeyChar(key[i])
      ensures i % 5 != 4 ==> key[i] == Alphabet[source(GroupSize * (i / 5) + i % 5)]
    {
      GroupedKeyAt(source, length, i);
      if i % 5 != 4 {
        AlphabetIsKeyChars(key[i]);
      }
    }
  }

  /** Layout of an ungrouped key: `length` draws in order, no separator. */
  lemma UngroupedKeyLayout(source: Source, length: int)
    ensures IsUngroupedKey(KeyOf(source, false, length), length)
    ensures forall i :: 0 <= i < |KeyOf(source, false, length)| ==>
              KeyOf(source, false, length)[i] == Alphabet[source(i)]
  {
    ChunkIsKeyChars(source, 0, if length < 0 then 0 else length);
    AlphabetIsKeyChars(Separator);
  }

  /** The key issued by the admin endpoint (grouped, length 16): 19 characters with '-' at 4, 9 and 14 only. */
  lemma DefaultKeyLayout(source: Source)
    ensures |KeyOf(source, true, 16)| == 19
    ensures forall i :: 0 <= i < 19 ==>
              (KeyOf(source, true, 16)[i] == Separator <==> i == 4 || i == 9 || i == 14)
  {
    GroupedKeyLayout(source, 16);
    assert NumGroups(16) == 4;
    forall i | 0 <= i < 19
      ensures i % 5 == 4 <==> i == 4 || i == 9 || i == 14
    {
    }
  }

  /** Python's `s.replace('-', '')`. */
  function RemoveSeparators(s: string): string
  {
    if |s| == 0 then ""
    else RemoveSeparators(s[..|s| - 1]) + (if s[|s| - 1] == Separator then "" else [s[|s| - 1]])
  }

  lemma {:induction false} RemoveSeparatorsAppend(a: string, b: string)
    ensures RemoveSeparators(a + b) == RemoveSeparators(a) + RemoveSeparators(b)
    decreases |b|
  {
    if |b| > 0 {
      var b' := b[..|b| - 1];
      assert (a + b)[..|a + b| - 1] == a + b';
      RemoveSeparatorsAppend(a, b');
    } else {
      assert a + b == a;
    }
  }

  lemma {:induction false} RemoveSeparatorsKeyChars(s: string)
    requires forall i :: 0 <= i < |s| ==> IsKeyChar(s[i])
    ensures RemoveSeparators(s) == s
    decreases |s|
  {
    if |s| > 0 {
      RemoveSeparatorsKeyChars(s[..|s| - 1]);
      AlphabetIsKeyChars(Separator);
      assert s == s[..|s| - 1] + [s[|s| - 1]];
    }
  }

  /** A trailing separator disappears. */
  lemma RemoveTrailingSeparator(front: string)
    ensures RemoveSeparators(front + [Separator]) == RemoveSeparators(front)
  {
    var s := front + [Separator];
    assert s[..|s| - 1] == front;
    assert s[|s| - 1] == Separator;
  }

  /** Removing separators from a prefix, a separator and a group of key characters. */
  lemma RemoveSeparatorsAroundGroup(front: string, group: string)
    requires forall i :: 0 <= i < |group| ==> IsKeyChar(group[i])
    ensures RemoveSeparators(front + [Separator] + group) == RemoveSeparators(front) + group
  {
    calc {
      RemoveSeparators(front + [Separator] + group);
      { RemoveSeparatorsAppend(front + [Separator], group); }
      RemoveSeparators(front + [Separator]) + RemoveSeparators(group);
      { RemoveSeparatorsKeyChars(group); }
      RemoveSeparators(front + [Separator]) + group;
      { RemoveTrailingSeparator(front); }
      RemoveSeparators(front) + group;
    }
  }

  /** Python's `''.join(parts)`. */
  function Concat(parts: seq<string>): string
  {
    if |parts| == 0 then "" else Concat(parts[..|parts| - 1]) + parts[|parts| - 1]
  }

  /** Removing the separators from joined groups of key characters concatenates the groups. */
  lemma {:induction false} RemoveSeparatorsOfJoin(parts: seq<string>)
    requires forall p :: 0 <= p < |parts| ==> forall i :: 0 <= i < |parts[p]| ==> IsKeyChar(parts[p][i])
    ensures RemoveSeparators(Join(parts)) == Concat(parts)
  {
    var n := |parts|;
    if n == 1 {
      RemoveSeparatorsKeyChars(parts[0]);
      assert Concat(parts) == Concat([]) + parts[0];
    } else if n > 1 {
      var front := parts[..n - 1];
      assert Join(parts) == Join(front) + [Separator] + parts[n - 1];
      RemoveSeparatorsAroundGroup(Join(front), parts[n - 1]);
      RemoveSeparatorsOfJoin(front);
    }
  }

  /** The groups, concatenated, are the draws in order. */
  lemma {:induction false} ConcatGroups(source: Source, n: nat)
    ensures Concat(Groups(source, n)) == Chunk(source, 0, GroupSize * n)
  {
    if n > 0 {
      var m := n - 1;
      assert Groups(source, n)[..m] == Groups(source, m);
      ConcatGroups(source, m);
      ChunkSplit(source, 0, GroupSize * m, GroupSize);
      assert GroupSize * m + GroupSize == GroupSize * n;
    }
  }

  lemma RemoveSeparatorsOfGroups(source: Source, n: nat)
    ensures RemoveSeparators(Join(Groups(source, n))) == Chunk(source, 0, GroupSize * n)
  {
    var gs := Groups(source, n);
    forall p | 0 <= p < n
      ensures forall i :: 0 <= i < |gs[p]| ==> IsKeyChar(gs[p][i])
    {
      ChunkIsKeyChars(source, GroupSize * p, GroupSize);
    }
    RemoveSeparatorsOfJoin(gs);
    ConcatGroups(source, n);
  }

  /**
   Grouping only inserts separators: removing them from a grouped key gives the
   ungrouped key over the same draws, of length `4 * (length // 4)`.
   */
  lemma GroupedIsUngroupedWithSeparators(source: Source, length: int)
    ensures RemoveSeparators(KeyOf(source, true, length)) == KeyOf(source, false, GroupSize * NumGroups(length))
  {
    RemoveSeparatorsOfGroups(source, NumGroups(length));
  }

  /**
   `generate_license_key(grouped, length)` as the source writes it: one loop
   of `random.choice` calls in ungrouped mode, and in grouped mode a loop over
   the groups with an inner loop of four calls, followed by `'-'.join`.
   */
  method GenerateLicenseKey(source: Source, grouped: bool := true, length: int := 16) returns (key: string)
    ensures key == KeyOf(source, grouped, length)
    ensures grouped ==> IsGroupedKey(key, NumGroups(length))
    ensures !grouped ==> IsUngroupedKey(key, length)
  {
    if !grouped {
      key := "";
      var i := 0;
      while i < length
        invariant 0 <= i
        invariant length >= 0 ==> i <= length
        invariant length < 0 ==> i == 0
        invariant key == Chunk(source, 0, i)
      {
        key := key + [Alphabet[source(i)]];
        i := i + 1;
      }
      UngroupedKeyLayout(source, length);
      return;
    }
    var groups: seq<string> := [];
    var numGroups := length / GroupSize;
    var g := 0;
    while g < numGroups
      invariant 0 <= g
      invariant numGroups >= 0 ==> g <= numGroups
      invariant numGroups < 0 ==> g == 0
      invariant groups == Groups(source, g)
    {
      var group := "";
      var c := 0;
      while c < GroupSize
        invariant 0 <= c <= GroupSize
        invariant group == Chunk(source, GroupSize * g, c)
      {
        group := group + [Alphabet[source(GroupSize * g + c)]];
        c := c + 1;
      }
      groups := groups + [group];
      g := g + 1;
    }
    assert length <= 0 ==> numGroups <= 0;
    assert g == NumGroups(length);
    key := Join(groups);
    GroupedKeyLayout(source, length);
  }
}
