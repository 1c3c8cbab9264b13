/** Extraction of cookie values from a raw `Set-Cookie` response header by
    chained `str.split` calls with fixed indices (main.py lines 115-128).
    Nothing here parses cookie syntax: the federated-session cookie is found
    by the substring marker `_shibsession_`, and the rotated Moodle session
    value is whatever lies between the first and second `=` of the header,
    cut at the first `;`.
 */
module SetCookie {
  import opened Wrappers
  import opened PyStr

  /** The substring that identifies the federated-session cookie name. */
  const Marker: string := "_shibsession_"

  datatype Cookie = Cookie(name: string, value: string)

  /** The federated-session cookie named in the header given as
      `headers.get('Set-Cookie', '')`.  `Ok(None)` is the tolerated case
      without the marker; `Err` is the IndexError raised when the marker is
      present but the text up to the next marker holds no `=`. */
  function ShibsessionCookie(header: Option<string>): (r: Result<Option<Cookie>>)
    ensures r == Ok(None) <==> !Contains(header.GetOr(""), Marker)
    ensures r.Err? <==>
      Contains(header.GetOr(""), Marker) && !Contains(Split(header.GetOr(""), Marker)[1], "=")
    ensures r.Ok? && r.value.Some? ==> Marker <= r.value.value.name
  {
    var h := header.GetOr("");
    if !Contains(h, Marker) then Ok(None)
    else
      // index 1 exists because the marker is present, index 0 always exists
      var afterMarker := Split(h, Marker)[1];
      var afterEq :- Index(Split(afterMarker, "="), 1);
      var value := Split(afterEq, ";")[0];
      var key := Split(afterMarker, "=")[0];
      Ok(Some(Cookie(Marker + key, value)))
  }

  /** The rotated Moodle session value from `response.headers["Set-Cookie"]`:
      a missing header raises KeyError and a header without `=` raises
      IndexError, both fatal, unlike the tolerated absence above. */
  function RotatedSessionValue(header: Option<string>): (r: Result<string>)
    ensures r.Err? <==> header.None? || !Contains(header.value, "=")
  {
    var h :- header.ToResult();
    var afterEq :- Index(Split(h, "="), 1);
    Ok(Split(afterEq, ";")[0])
  }

  /** Whatever the header, an extracted federated-session cookie is the
      marker followed by a key free of `=` and of the marker, and both
      extracted values are free of `=` and `;`. */
  lemma ExtractedShapes(shibHeader: Option<string>, rotatedHeader: Option<string>)
    ensures var r := ShibsessionCookie(shibHeader);
      r.Ok? && r.value.Some? ==>
        var c := r.value.value;
        && Marker <= c.name
        && !Contains(c.name[|Marker|..], "=") && !Contains(c.name[|Marker|..], Marker)
        && !Contains(c.value, "=") && !Contains(c.value, ";")
    ensures var r := RotatedSessionValue(rotatedHeader);
      r.Ok? ==> !Contains(r.value, "=") && !Contains(r.value, ";")
  {
    var h := shibHeader.GetOr("");
    if Contains(h, Marker) {
      SplitPartsFree(h, Marker);
      var afterMarker := Split(h, Marker)[1];
      SplitPartsFree(afterMarker, "=");
      var parts := Split(afterMarker, "=");
      if |parts| >= 2 {
        SplitPartsFree(parts[1], ";");
        PartsOfFreeText(parts[1], ";", "=");
        PartsOfFreeText(afterMarker, "=", Marker);
        assert (Marker + parts[0])[|Marker|..] == parts[0];
      }
    }
    if rotatedHeader.Some? && Contains(rotatedHeader.value, "=") {
      var parts := Split(rotatedHeader.value, "=");
      SplitPartsFree(rotatedHeader.value, "=");
      SplitPartsFree(parts[1], ";");
      PartsOfFreeText(parts[1], ";", "=");
    }
  }

  /** Splitting text that lacks `other` yields parts that lack it too. */
  lemma PartsOfFreeText(s: string, sep: string, other: string)
    requires |sep| > 0
    requires !Contains(s, other)
    ensures forall i :: 0 <= i < |Split(s, sep)| ==> !Contains(Split(s, sep)[i], other)
  {
    JoinSplit(s, sep);
    forall i | 0 <= i < |Split(s, sep)|
      ensures !Contains(Split(s, sep)[i], other)
    {
      if Contains(Split(s, sep)[i], other) {
        PartInJoin(Split(s, sep), sep, i, other);
      }
    }
  }

  // ---------------------------------------------------------------------
  // What the extractors return for well-formed headers
  // ---------------------------------------------------------------------

  /** What may follow a cookie value so that the value is cut off exactly:
      nothing, an attribute list starting with `;`, or a further `=`. */
  predicate ClosesValue(t: string) {
    t == "" || t[0] == ';' || t[0] == '='
  }

  /** The rotated value of `n=v` followed by nothing, by an attribute list
      starting with `;`, or by a further `=` is exactly `v`. */
  lemma RotatedValueOfCookie(n: string, v: string, t: string)
    requires '=' !in n && '=' !in v && ';' !in v
    requires ClosesValue(t)
    ensures RotatedSessionValue(Some(n + "=" + v + t)) == Ok(v)
  {
    var h := n + "=" + v + t;
    assert h == n + ['='] + (v + t);
    SplitAtChar(n, '=', v + t);
    ValueBeforeDelimiters(v, t);
  }

  /** The first part of `v + t` split at `=`, then at `;`, is `v` when `v`
      holds neither and `t` is empty or starts with one of them. */
  lemma {:induction false} ValueBeforeDelimiters(v: string, t: string)
    requires '=' !in v && ';' !in v
    requires ClosesValue(t)
    ensures Split(Split(v + t, "=")[0], ";")[0] == v
  {
    if t == "" {
      assert v + t == v;
      ValueAlone(v);
    } else if t[0] == '=' {
      assert v + t == v + ['='] + t[1..];
      UpToEquals(v, t[1..]);
    } else {
      assert v + t == v + [';'] + t[1..];
      UpToSemicolon(v, t[1..]);
    }
  }

  /** A value with neither delimiter survives both splits whole. */
  lemma ValueAlone(v: string)
    requires '=' !in v && ';' !in v
    ensures Split(Split(v, "=")[0], ";")[0] == v
  {
    ContainsChar(v, '=');
    SplitAbsent(v, "=");
    ContainsChar(v, ';');
    SplitAbsent(v, ";");
  }

  /** Text `v=w` with neither delimiter in `v` gives `v`. */
  lemma UpToEquals(v: string, w: string)
    requires '=' !in v && ';' !in v
    ensures Split(Split(v + ['='] + w, "=")[0], ";")[0] == v
  {
    SplitAtChar(v, '=', w);
    ContainsChar(v, ';');
    SplitAbsent(v, ";");
  }

  /** Text `v;w` with no `=` in `v`: the `=`-split keeps `v;` in front, so the
      `;`-split of its first part gives `v`. */
  lemma UpToSemicolon(v: string, w: string)
    requires '=' !in v && ';' !in v
    ensures Split(Split(v + [';'] + w, "=")[0], ";")[0] == v
  {
    var s := v + [';'] + w;
    forall j | 0 <= j < |v| + 1
      ensures !OccursAt(s, "=", j)
    {
      OccursAtChar(s, '=', j);
    }
    SplitHeadKeeps(s, |v| + 1, "=");
    assert s[..|v| + 1] == v + [';'];
    var a := Split(s, "=")[0];
    assert a == v + [';'] + a[|v| + 1..];
    SplitAtChar(v, ';', a[|v| + 1..]);
  }

  /** Behind a first marker that follows `p`, the text up to the next marker
      is the first part of the split of what follows the marker. */
  lemma AfterFirstMarker(p: string, t: string)
    requires Find(p + Marker, Marker) == Some(|p|)
    ensures Contains(p + Marker + t, Marker)
    ensures |Split(p + Marker + t, Marker)| >= 2
    ensures Split(p + Marker + t, Marker)[1] == Split(t, Marker)[0]
  {
    assert p + Marker + t == (p + Marker) + t;
    FindExtend(p + Marker, t, Marker, |p|);
    SplitLeftmost(p, t, Marker);
  }

  /** The text `k=v` followed by a closing tail yields key `k` from its
      `=`-split and value `v` from the `;`-split of the second part. */
  lemma {:induction false} KeyValueOf(k: string, v: string, w: string)
    requires '=' !in k && '=' !in v && ';' !in v
    requires ClosesValue(w)
    ensures |Split(k + "=" + v + w, "=")| >= 2
    ensures Split(k + "=" + v + w, "=")[0] == k
    ensures Split(Split(k + "=" + v + w, "=")[1], ";")[0] == v
  {
    assert k + "=" + v + w == k + ['='] + (v + w);
    SplitAtChar(k, '=', v + w);
    ValueBeforeDelimiters(v, w);
  }

  /** What may follow a value so that splitting at `sep` and then at `=`
      and `;` cuts it off exactly: a closing tail, or a further `sep`
      provided no occurrence starts inside `v + sep` before the appended one. */
  predicate ClosesValueBefore(v: string, t: string, sep: string) {
    ClosesValue(t) || (sep <= t && Find(v + sep, sep) == Some(|v|))
  }

  /** For a header `p + Marker + k + "=" + v + t` whose first marker is the
      one after `p`, and whose value `v` is closed by `t`, the stored cookie
      is `Marker + k` with value `v`. */
  lemma {:induction false} ShibsessionOfCookie(p: string, k: string, v: string, t: string)
    requires Find(p + Marker, Marker) == Some(|p|)
    requires '=' !in k && !Contains(k, Marker)
    requires '=' !in v && ';' !in v && !Contains(v, Marker)
    requires ClosesValueBefore(v, t, Marker)
    ensures ShibsessionCookie(Some(p + Marker + k + "=" + v + t))
            == Ok(Some(Cookie(Marker + k, v)))
  {
    var h := p + Marker + k + "=" + v + t;
    HeaderParts(p, k, v, t);
    CookieOfAfterMarker(h, Split(h, Marker)[1]);
  }

  /** The split chain of lines 117-118 applied to such a header yields `k`
      and `v`. */
  lemma {:induction false} HeaderParts(p: string, k: string, v: string, t: string)
    requires Find(p + Marker, Marker) == Some(|p|)
    requires '=' !in k && !Contains(k, Marker)
    requires '=' !in v && ';' !in v && !Contains(v, Marker)
    requires ClosesValueBefore(v, t, Marker)
    ensures var h := p + Marker + k + "=" + v + t;
      && Contains(h, Marker) && |Split(h, Marker)| >= 2
      && var a := Split(h, Marker)[1];
      && |Split(a, "=")| >= 2 && Split(a, "=")[0] == k && Split(Split(a, "=")[1], ";")[0] == v
  {
    var h := p + Marker + k + "=" + v + t;
    var tail := k + "=" + v + t;
    assert h == p + Marker + tail;
    AfterFirstMarker(p, tail);
    KeyValueSection(k, v, t);
  }

  /** The text of `k=v` + `t` up to its first marker splits into key `k`
      and value `v`. */
  lemma {:induction false} KeyValueSection(k: string, v: string, t: string)
    requires '=' !in k && !Contains(k, Marker)
    requires '=' !in v && ';' !in v && !Contains(v, Marker)
    requires ClosesValueBefore(v, t, Marker)
    ensures var a := Split(k + "=" + v + t, Marker)[0];
      |Split(a, "=")| >= 2 && Split(a, "=")[0] == k && Split(Split(a, "=")[1], ";")[0] == v
  {
    assert '=' !in Marker && ';' !in Marker;
    SepSplitHead(k, v, t, Marker);
    var a := Split(k + "=" + v + t, Marker)[0];
    var w := a[|k| + 1 + |v|..];
    assert a == k + "=" + v + w;
    KeyValueOf(k, v, w);
  }

  /** The cookie extracted from a header whose text after the first marker
      (up to the next one) is `a` and holds an `=`. */
  lemma CookieOfAfterMarker(h: string, a: string)
    requires Contains(h, Marker) && |Split(h, Marker)| >= 2 && Split(h, Marker)[1] == a
    requires |Split(a, "=")| >= 2
    ensures ShibsessionCookie(Some(h))
            == Ok(Some(Cookie(Marker + Split(a, "=")[0], Split(Split(a, "=")[1], ";")[0])))
  {
  }

  /** The text of `k=v` + `t` up to its first `sep` is `k=v` followed by a
      closing tail. */
  lemma {:induction false} SepSplitHead(k: string, v: string, t: string, sep: string)
    requires |sep| > 0 && '=' !in sep && ';' !in sep
    requires !Contains(k, sep) && !Contains(v, sep)
    requires ClosesValueBefore(v, t, sep)
    ensures k + "=" + v <= Split(k + "=" + v + t, sep)[0]
    ensures ClosesValue(Split(k + "=" + v + t, sep)[0][|k| + 1 + |v|..])
  {
    var s := k + "=" + v + t;
    var n := |k| + 1 + |v|;
    NoSepBefore(k, v, t, sep);
    if ClosesValue(t) {
      HeadBeforeClosingTail(s, n, t, sep);
    } else {
      assert s[n..n + |sep|] == sep;
      HeadBeforeSep(s, n, sep);
    }
    assert s[..n] == k + "=" + v;
  }

  /** With no `sep` before `n` and a closing tail from `n` on, the first part
      of the split keeps `s[..n]` and continues with a closing tail. */
  lemma {:induction false} HeadBeforeClosingTail(s: string, n: nat, t: string, sep: string)
    requires |sep| > 0
    requires n <= |s| && s[n..] == t && ClosesValue(t)
    requires forall j :: 0 <= j < n ==> !OccursAt(s, sep, j)
    ensures s[..n] <= Split(s, sep)[0]
    ensures ClosesValue(Split(s, sep)[0][n..])
  {
    SplitHeadKeeps(s, n, sep);
    var a := Split(s, sep)[0];
    if |a| > n {
      assert a[n..][0] == a[n] == s[n] == t[0];
    }
  }

  /** With no `sep` before `n` and one at `n`, the first part of the split is
      exactly `s[..n]`. */
  lemma {:induction false} HeadBeforeSep(s: string, n: nat, sep: string)
    requires |sep| > 0
    requires OccursAt(s, sep, n)
    requires forall j :: 0 <= j < n ==> !OccursAt(s, sep, j)
    ensures Split(s, sep)[0] == s[..n]
  {
    FindUnique(s, sep, n);
    SplitHead(s, sep);
  }

  /** No `sep` starts inside `k=v`: one would have to lie in `k` or in `v`,
      cover the `=`, or run into the closing tail. */
  lemma {:induction false} NoSepBefore(k: string, v: string, t: string, sep: string)
    requires '=' !in sep && ';' !in sep
    requires !Contains(k, sep) && !Contains(v, sep)
    requires ClosesValueBefore(v, t, sep)
    ensures forall j :: 0 <= j < |k| + 1 + |v| ==> !OccursAt(k + "=" + v + t, sep, j)
  {
    var s := k + "=" + v + t;
    var n := |k| + 1 + |v|;
    assert s[|k|] == '=';
    assert s[0..|k|] == k;
    assert s[|k| + 1..n] == v;
    forall j | 0 <= j < n && OccursAt(s, sep, j)
      ensures false
    {
      if j + |sep| <= |k| {
        OccursInSlice(s, sep, 0, |k|, j);
      } else if j <= |k| {
        NoOccurrenceOver(s, sep, j, |k|);
      } else if j + |sep| <= n {
        OccursInSlice(s, sep, |k| + 1, n, j);
      } else {
        NoSepIntoTail(k + "=", v, t, j, sep);
      }
    }
  }

  /** An occurrence of `sep` starting inside `v` cannot run into the tail
      that closes `v`. */
  lemma {:induction false} NoSepIntoTail(u: string, v: string, t: string, j: nat, sep: string)
    requires '=' !in sep && ';' !in sep
    requires ClosesValueBefore(v, t, sep)
    requires |u| <= j < |u| + |v| < j + |sep|
    ensures !OccursAt(u + v + t, sep, j)
  {
    var s := u + v + t;
    var n := |u| + |v|;
    if OccursAt(s, sep, j) {
      if ClosesValue(t) {
        assert s[n] == t[0];
        NoOccurrenceOver(s, sep, j, n);
      } else {
        assert s[|u|..n + |sep|] == v + sep;
        OccursInSlice(s, sep, |u|, n + |sep|, j);
      }
    }
  }

  /** The example header from the login flow: key `_shibsession_64656`,
      value `ABC123`, trailing attributes ignored. */
  lemma ShibsessionExample(h: string)
    requires h == "_shibsession_64656=ABC123; Path=/; Secure"
    ensures ShibsessionCookie(Some(h)) == Ok(Some(Cookie("_shibsession_64656", "ABC123")))
  {
    ExampleShape(h);
    MarkerFirstAfter("");
    ShortNoMarker("64656");
    ShortNoMarker("ABC123");
    ShibsessionOfCookie("", "64656", "ABC123", "; Path=/; Secure");
    assert Marker + "64656" == "_shibsession_64656";
  }

  lemma ExampleShape(h: string)
    requires h == "_shibsession_64656=ABC123; Path=/; Secure"
    ensures h == "" + Marker + "64656" + "=" + "ABC123" + "; Path=/; Secure"
  {
  }

  /** A prefix free of the marker is not enough: when it ends in part of the
      marker, the first occurrence starts inside it and the key shifts. */
  lemma StraddlingPrefixShiftsKey(p: string, h: string)
    requires p == "x_shibsession" && h == p + Marker + "1=V;"
    ensures !Contains(p, Marker)
    ensures ShibsessionCookie(Some(h)) == Ok(Some(Cookie(Marker + "shibsession_1", "V")))
  {
    ShortNoMarker(p);
    StraddleShape(p, h);
    MarkerFirstAfter("x");
    ShortNoMarker("V");
    NoMarkerInKey("shibsession_1");
    ShibsessionOfCookie("x", "shibsession_1", "V", ";");
  }

  lemma StraddleShape(p: string, h: string)
    requires p == "x_shibsession" && h == p + Marker + "1=V;"
    ensures h == "x" + Marker + "shibsession_1" + "=" + "V" + ";"
  {
    assert p == "x" + "_shibsession";
    assert Marker + "shibsession_1" == "_shibsession" + Marker + "1";
    assert "1=V;" == "1" + "=" + "V" + ";";
  }

  /** The same holds at the other end of the value: a value free of the
      marker but ending in `_shibsession`, followed by a further marker, is
      cut where the straddling occurrence starts. */
  lemma StraddlingValueIsCut(v: string, h: string)
    requires v == "a_shibsession" && h == Marker + "k=" + v + Marker + "z=1"
    ensures !Contains(v, Marker)
    ensures ShibsessionCookie(Some(h)) == Ok(Some(Cookie(Marker + "k", "a")))
  {
    ShortNoMarker(v);
    ValueStraddleShape(v, h);
    MarkerFirstAfter("");
    MarkerFirstAfter("a");
    ShortNoMarker("k");
    ShortNoMarker("a");
    ShibsessionOfCookie("", "k", "a", Marker + "shibsession_z=1");
  }

  lemma ValueStraddleShape(v: string, h: string)
    requires v == "a_shibsession" && h == Marker + "k=" + v + Marker + "z=1"
    ensures h == "" + Marker + "k" + "=" + "a" + (Marker + "shibsession_z=1")
  {
    assert v == "a" + "_shibsession";
    assert "_shibsession" + Marker == Marker + "shibsession_";
    assert "k=" == "k" + "=";
  }

  /** Text shorter than the marker cannot contain it. */
  lemma ShortNoMarker(s: string)
    requires |s| <= 13
    requires s != Marker
    ensures !Contains(s, Marker)
  {
    assert |Marker| == 13;
    if |s| == 13 {
      assert s[0..13] == s;
    }
  }

  /** `shibsession_1` lacks the marker's leading underscore where it would have to be. */
  lemma NoMarkerInKey(s: string)
    requires s == "shibsession_1"
    ensures !Contains(s, Marker)
  {
    assert |s| == 13 && s[0] != Marker[0];
    ShortNoMarker(s);
  }

  /** After a prefix without any underscore, the appended marker is the first one. */
  lemma MarkerFirstAfter(p: string)
    requires '_' !in p
    ensures Find(p + Marker, Marker) == Some(|p|)
  {
    var s := p + Marker;
    assert s[|p|..|p| + |Marker|] == Marker;
    forall j | 0 <= j < |p|
      ensures !OccursAt(s, Marker, j)
    {
      assert s[j] == p[j] != Marker[0];
      if j + |Marker| <= |s| {
        assert s[j..j + |Marker|][0] == s[j];
      }
    }
    FindUnique(s, Marker, |p|);
  }
}
