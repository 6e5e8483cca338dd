/**
 What the links of named document versions mean, in the words of keys, dates and names, and what a
 change of a document writes.
 */
module VersionMeaning {
  import opened Basics
  import V = VersionChain

  /* ---- keys ---- */

  /** The keys agree up to a place where the first ends or is smaller. */
  ghost predicate SmallerAt(a: V.Key, b: V.Key, k: nat)
  {
    && k <= |a| && k < |b| && (forall i | 0 <= i < k :: a[i] == b[i])
    && (k == |a| || a[k] < b[k])
  }

  ghost predicate Smaller(a: V.Key, b: V.Key)
  {
    exists k: nat :: SmallerAt(a, b, k)
  }

  /** Keys are compared as tuples are. */
  lemma {:induction false} LessIsSmaller(a: V.Key, b: V.Key)
    ensures V.Less(a, b) <==> Smaller(a, b)
    decreases |a|
  {
    if b != [] && (a == [] || a[0] < b[0]) {
      assert SmallerAt(a, b, 0);
    }
    if a != [] && b != [] && a[0] == b[0] {
      LessIsSmaller(a[1..], b[1..]);
      if k: nat :| SmallerAt(a[1..], b[1..], k) {
        assert SmallerAt(a, b, k + 1) by {
          assert forall i | 1 <= i <= k :: a[i] == a[1..][i - 1] && b[i] == b[1..][i - 1];
        }
      }
      if k: nat :| SmallerAt(a, b, k) {
        assert k > 0 && SmallerAt(a[1..], b[1..], k - 1);
      }
    }
  }

  /* ---- names ---- */

  /** No blank at either end, and something there. */
  ghost predicate Plain(s: string)
  {
    s != "" && !IsSpace(s[0]) && !IsSpace(s[|s| - 1])
  }

  lemma {:induction false} LeftEnds(s: string, i: nat, first: nat)
    requires i <= first <= |s| && (forall k | i <= k < first :: IsSpace(s[k])) && (first < |s| ==> !IsSpace(s[first]))
    ensures V.TrimLeft(s, i) == first
    decreases first - i
  {
    if i < first {
      LeftEnds(s, i + 1, first);
    }
  }

  lemma {:induction false} RightEnds(s: string, i: nat, j: nat, last: nat)
    requires i <= last <= j <= |s| && (forall k | last <= k < j :: IsSpace(s[k])) && (last > i ==> !IsSpace(s[last - 1]))
    ensures V.TrimRight(s, i, j) == last
    decreases j
  {
    if last < j {
      RightEnds(s, i, j - 1, last);
    }
  }

  /** Blanks at the ends of a name do not count. */
  lemma StripIs(pad: string, core: string, tail: string)
    requires Blank(pad) && Blank(tail) && (core == "" || Plain(core))
    ensures V.Strip(pad + core + tail) == core
  {
    var s, a, b := pad + core + tail, |pad|, |pad| + |core|;
    forall k | 0 <= k < a ensures IsSpace(s[k]) {
      assert s[k] == pad[k] && pad[k] in pad;
    }
    forall k | b <= k < |s| ensures IsSpace(s[k]) {
      assert s[k] == tail[k - b] && tail[k - b] in tail;
    }
    hide IsSpace;
    if core != "" {
      assert s[a] == core[0] && s[b - 1] == core[|core| - 1];
      LeftEnds(s, 0, a);
      RightEnds(s, a, |s|, b);
      assert s[a..b] == core;
    } else {
      LeftEnds(s, 0, |s|);
      RightEnds(s, |s|, |s|, |s|);
    }
  }

  lemma PlainIsStripped(s: string)
    requires Plain(s)
    ensures V.Strip(s) == s
  {
    StripIs("", s, "");
    assert "" + s + "" == s;
  }

  /* ---- links ---- */

  /** A live version with a name, a kind and a key, the names stored without blanks around them. */
  ghost predicate NamedVersion(row: V.Row)
  {
    && !row.deleted && Plain(row.version.family) && row.version.kind.Some? && Plain(row.version.kind.value)
    && row.version.key.Some? && row.version.key.value != []
  }

  /** The other is a live version of the same scope, name and kind. */
  ghost predicate Peers(a: V.Row, b: V.Row)
  {
    && !b.deleted && b.scope == a.scope && b.version.family == a.version.family && b.version.kind == a.version.kind
    && b.version.key.Some?
  }

  /** Stored earlier, or at the same time with a smaller identifier. */
  ghost predicate Earlier(rows: V.Rows, m: nat, n: nat)
    requires m in rows && n in rows
  {
    rows[m].created < rows[n].created || (rows[m].created == rows[n].created && m < n)
  }

  lemma NamedIsNamed(row: V.Row)
    requires NamedVersion(row)
    ensures V.Named(row) && V.GroupOf(row) == Some(V.Group(row.scope, row.version.family, row.version.kind.value))
  {
    PlainIsStripped(row.version.family);
    PlainIsStripped(row.version.kind.value);
    hide V.Strip;
  }

  lemma PeersAreMembers(rows: V.Rows, id: nat, m: nat)
    requires id in rows && rows[id].version.kind.Some? && m in rows
    ensures V.Member(rows, V.Group(rows[id].scope, rows[id].version.family, rows[id].version.kind.value), m)
       <==> Peers(rows[id], rows[m])
  {
  }

  /**
   At all times a named version points to the newest older version: of its peers with a smaller key
   one with the greatest, and of those the one that was stored first; and to none if no peer has a
   smaller key.
   */
  lemma LinkMeans(rows: V.Rows, id: nat)
    requires V.LinksAreRight(rows) && id in rows && NamedVersion(rows[id])
    ensures var row := rows[id];
            var link := row.supersedes;
            if link.None?
            then forall m | m in rows && Peers(row, rows[m]) :: !Smaller(rows[m].version.key.value, row.version.key.value)
            else
              var t := link.value;
              && t in rows && Peers(row, rows[t]) && Smaller(rows[t].version.key.value, row.version.key.value)
              && forall m | m in rows && Peers(row, rows[m]) && Smaller(rows[m].version.key.value, row.version.key.value) ::
                   && !Smaller(rows[t].version.key.value, rows[m].version.key.value)
                   && (rows[m].version.key == rows[t].version.key ==> m == t || Earlier(rows, t, m))
  {
    var row := rows[id];
    NamedIsNamed(row);
    var g := V.Group(row.scope, row.version.family, row.version.kind.value);
    hide V.Less, Smaller, V.GroupOf, V.Named, V.Strip;
    forall m | m in rows ensures V.Member(rows, g, m) <==> Peers(row, rows[m]) {
      PeersAreMembers(rows, id, m);
    }
    hide V.Member, Peers;
    forall a, b ensures V.Less(a, b) <==> Smaller(a, b) {
      LessIsSmaller(a, b);
    }
    assert V.IsLink(rows, g, id, row.supersedes);
    if row.supersedes.Some? {
      var t := row.supersedes.value;
      forall m | m in rows && V.Member(rows, g, m) && V.Less(rows[m].version.key.value, row.version.key.value)
        ensures !V.Less(rows[t].version.key.value, rows[m].version.key.value)
      {
        if V.Less(rows[t].version.key.value, rows[m].version.key.value) {
          V.LessIsStrict(rows[t].version.key.value);
          if V.Less(rows[m].version.key.value, rows[t].version.key.value) {
            V.LessChains(rows[t].version.key.value, rows[m].version.key.value, rows[t].version.key.value);
          }
        }
      }
    }
  }

  /* ---- changes ---- */

  /** A change relinks the versions under the trimmed name, if there is a name, a kind and a key. */
  lemma GroupIs(row: V.Row, pad: string, family: string, tail: string, before: string, kind: string, after: string)
    requires Blank(pad) && Blank(tail) && Blank(before) && Blank(after)
    requires (family == "" || Plain(family)) && (kind == "" || Plain(kind))
    requires row.version.family == pad + family + tail
    requires row.version.kind == Some(before + kind + after) || (row.version.kind.None? && kind == "")
    ensures V.GroupOf(row) ==
              if family == "" || kind == "" || row.version.key.None? || row.version.key == Some([]) then None
              else Some(V.Group(row.scope, family, kind))
  {
    StripIs(pad, family, tail);
    StripIs(before, kind, after);
    hide V.Strip, Plain, Blank;
  }

  /** A new name or new metadata gives a new version and clears the link; nothing else changes. */
  lemma PatchIs(row: V.Row, version: V.Version)
    ensures V.Patched(row, V.NewVersion(version)) == V.Row(row.scope, version, row.created, row.deleted, None)
    ensures V.Patched(row, V.OtherFields) == row && V.Patched(row, V.Nothing) == row
  {
  }

  /** Only live rows whose version has changed are written anew, and lose their link. */
  lemma RefreshIs(rows: V.Rows, fields: map<nat, V.Version>, id: nat)
    requires id in rows
    ensures id in V.Refreshed(rows, fields)
    ensures V.Refreshed(rows, fields)[id] ==
              if rows[id].deleted || id !in fields || rows[id].version == fields[id] then rows[id]
              else V.Row(rows[id].scope, fields[id], rows[id].created, false, None)
    ensures V.Versioned(rows[id]) <==> !rows[id].deleted && rows[id].version.kind.Some? && rows[id].version.key.Some?
  {
  }
}
