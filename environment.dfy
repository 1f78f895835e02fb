// The process-wide environment of a GPUI application: the user's locale and
// the logical window metrics, the observers subscribed to changes of either,
// and the static caches that code without an application handle reads.
//
// One `Environment` object stands for the application's global slot for the
// environment state together with the two static caches. Observers are
// identified by an integer standing for their callback; invoking the
// callbacks is recorded in the `notices` log, in the order the source runs
// them.
module Environment {
  import opened Wrappers

  /** A BCP-47 locale identifier such as "en-US". */
  datatype LocaleInfo = LocaleInfo(identifier: string)

  /** Window content size in logical pixels, backing scale and font scale. */
  datatype WindowMetrics = WindowMetrics(width: real, height: real, scale: real, fontScale: real)

  /** Which observer list a notification round went to. */
  datatype Topic = LocaleTopic | MetricsTopic

  /**
   * One notification round: every subscribed callback of `topic`, in
   * subscription order.
   */
  datatype Notice = Notice(topic: Topic, callbacks: seq<int>)

  /** The metrics installed before any window reports its size. */
  const InitialMetrics := WindowMetrics(0.0, 0.0, 1.0, 1.0)

  class Environment {
    /** Whether the global state has been installed. */
    var installed: bool
    var locale: LocaleInfo
    var metrics: WindowMetrics
    var localeObservers: seq<int>
    var metricsObservers: seq<int>
    /** The static caches readable without an application handle. */
    var cachedLocale: Option<LocaleInfo>
    var cachedMetrics: Option<WindowMetrics>
    /** Every notification round run so far, oldest first. */
    var notices: seq<Notice>

    /** The caches mirror the state once it is installed and are empty before. */
    ghost predicate Valid()
      reads this
    {
      && (installed ==> cachedLocale == Some(locale) && cachedMetrics == Some(metrics))
      && (!installed ==> cachedLocale == None && cachedMetrics == None
                         && localeObservers == [] && metricsObservers == [])
    }

    /** A fresh application: no environment state, empty caches. */
    constructor ()
      ensures Valid() && !installed
      ensures notices == []
    {
      installed := false;
      locale := LocaleInfo("");
      metrics := InitialMetrics;
      localeObservers := [];
      metricsObservers := [];
      cachedLocale := None;
      cachedMetrics := None;
      notices := [];
    }

    /**
     * Installs the defaults the first time only; `systemLocale` is what
     * the platform's locale query returned.
     */
    method Init(systemLocale: string)
      requires Valid()
      modifies this
      ensures Valid() && installed
      ensures old(installed) ==> unchanged(this)
      ensures !old(installed) ==>
        && locale == LocaleInfo(systemLocale)
        && metrics == InitialMetrics
        && localeObservers == [] && metricsObservers == []
        && notices == old(notices)
    {
      if !installed {
        installed := true;
        locale := LocaleInfo(systemLocale);
        metrics := WindowMetrics(0.0, 0.0, 1.0, 1.0);
        localeObservers := [];
        metricsObservers := [];
        cachedLocale := Some(locale);
        cachedMetrics := Some(metrics);
      }
    }

    /** The current locale; the source panics when the state is missing. */
    method CurrentLocale() returns (l: LocaleInfo)
      requires Valid() && installed
      ensures Some(l) == cachedLocale
    {
      l := locale;
    }

    /** The current window metrics as last observed. */
    method CurrentWindowMetrics() returns (m: WindowMetrics)
      requires Valid() && installed
      ensures Some(m) == cachedMetrics
    {
      m := metrics;
    }

    /** The cached locale: None before initialisation, the state afterwards. */
    method CachedLocale() returns (l: Option<LocaleInfo>)
      requires Valid()
      ensures l.None? <==> !installed
      ensures installed ==> l == Some(locale)
    {
      l := cachedLocale;
    }

    /** The cached metrics: None before initialisation, the state afterwards. */
    method CachedWindowMetrics() returns (m: Option<WindowMetrics>)
      requires Valid()
      ensures m.None? <==> !installed
      ensures installed ==> m == Some(metrics)
    {
      m := cachedMetrics;
    }

    /**
     * Replaces the locale, refreshes the cache and notifies every locale
     * observer, all only when the new locale differs from the current one.
     */
    method SetLocale(newLocale: LocaleInfo)
      requires Valid() && installed
      modifies this
      ensures Valid() && installed
      ensures locale == newLocale
      ensures old(locale) == newLocale ==> unchanged(this)
      ensures old(locale) != newLocale ==>
        && notices == old(notices) + [Notice(LocaleTopic, localeObservers)]
        && metrics == old(metrics)
        && localeObservers == old(localeObservers)
        && metricsObservers == old(metricsObservers)
    {
      if locale != newLocale {
        locale := newLocale;
        cachedLocale := Some(locale);
        notices := notices + [Notice(LocaleTopic, localeObservers)];
      }
    }

    /**
     * Replaces the window metrics, refreshes the cache and notifies every
     * metrics observer, all only when the new metrics differ.
     */
    method SetWindowMetrics(newMetrics: WindowMetrics)
      requires Valid() && installed
      modifies this
      ensures Valid() && installed
      ensures metrics == newMetrics
      ensures old(metrics) == newMetrics ==> unchanged(this)
      ensures old(metrics) != newMetrics ==>
        && notices == old(notices) + [Notice(MetricsTopic, metricsObservers)]
        && locale == old(locale)
        && localeObservers == old(localeObservers)
        && metricsObservers == old(metricsObservers)
    {
      if metrics != newMetrics {
        metrics := newMetrics;
        cachedMetrics := Some(metrics);
        notices := notices + [Notice(MetricsTopic, metricsObservers)];
      }
    }

    /** Subscribes `callback` to locale changes, after every earlier one. */
    method OnLocaleChanged(callback: int)
      requires Valid() && installed
      modifies this
      ensures Valid() && installed
      ensures localeObservers == old(localeObservers) + [callback]
      ensures locale == old(locale) && metrics == old(metrics)
      ensures metricsObservers == old(metricsObservers) && notices == old(notices)
    {
      localeObservers := localeObservers + [callback];
    }

    /** Subscribes `callback` to window-metrics changes, after every earlier one. */
    method OnWindowMetricsChanged(callback: int)
      requires Valid() && installed
      modifies this
      ensures Valid() && installed
      ensures metricsObservers == old(metricsObservers) + [callback]
      ensures locale == old(locale) && metrics == old(metrics)
      ensures localeObservers == old(localeObservers) && notices == old(notices)
    {
      metricsObservers := metricsObservers + [callback];
    }
  }
}
