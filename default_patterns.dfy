/** The bundled table of well-known provider token patterns. The same forty
    entries, in the same order, back both `common.DefaultRules`
    (pkg/common/rules.go) and `secrets.DefaultStaticRules`
    (pkg/secrets/rules.go); each pattern is `regexp.MustCompile`d, so all of
    them compile. */
module DefaultPatterns {

  /** (name, pattern source) pairs. */
  const Table: seq<(string, string)> := [
    ("Twitter", @"[1-9][0-9]+-[0-9a-zA-Z]{40}"),
    ("Twitter", @"/(^|[^@\w])@(\w{1,15})\b/"),
    ("Facebook", @"EAACEdEose0cBA[0-9A-Za-z]+"),
    ("Facebook", @"[A-Za-z0-9]{125}"),
    ("Instagram", @"[0-9a-fA-F]{7}\.[0-9a-fA-F]{32}"),
    ("Google", @"AIza[0-9A-Za-z-_]{35}"),
    ("Google", @"[0-9a-zA-Z\-_]{24}"),
    ("Google", @"4/[0-9A-Za-z\-_]+"),
    ("Google", @"1/[0-9A-Za-z\-_]{43}|1/[0-9A-Za-z\-_]{64}"),
    ("Google", @"ya29\.[0-9A-Za-z\-_]+"),
    ("GitHub", @"^ghp_[a-zA-Z0-9]{36}$"),
    ("GitHub", @"^github_pat_[a-zA-Z0-9]{22}_[a-zA-Z0-9]{59}$"),
    ("GitHub", @"^gho_[a-zA-Z0-9]{36}$"),
    ("GitHub", @"^ghu_[a-zA-Z0-9]{36}$"),
    ("GitHub", @"^ghs_[a-zA-Z0-9]{36}$"),
    ("GitHub", @"^ghr_[a-zA-Z0-9]{36}$"),
    ("Mapbox", @"([s,p]k.eyJ1Ijoi[\w\.-]+)"),
    ("Mapbox", @"([s,p]k.eyJ1Ijoi[\w\.-]+)"),
    ("Foursquare", @"R_[0-9a-f]{32}"),
    ("Picatic", @"sk_live_[0-9a-z]{32}"),
    ("Stripe", @"sk_live_[0-9a-zA-Z]{24}"),
    ("Stripe", @"sk_live_[0-9a-zA-Z]{24}"),
    ("Square", @"sqOatp-[0-9A-Za-z\-_]{22}"),
    ("Square", @"q0csp-[0-9A-Za-z\-_]{43}"),
    ("Paypal / Braintree", @"access_token\,production\$[0-9a-z]{161}[0-9a,]{32}"),
    ("Amazon Marketing Services", @"amzn\.mws\.[0-9a-f]{8}-[0-9a-f]{4}-10-9a-f1{4}-[0-9a,]{4}-[0-9a-f]{12}"),
    ("Twilio", @"55[0-9a-fA-F]{32}"),
    ("MailGun", @"key-[0-9a-zA-Z]{32}"),
    ("MailChimp", @"[ 0-9a-f ]{ 32 }-us[0-9]{1,2}"),
    ("Slack", @"xoxb-[0-9]{11}-[0-9]{11}-[0-9a-zA-Z]{24}"),
    ("Slack", @"xoxp-[0-9]{11}-[0-9]{11}-[0-9a-zA-Z]{24}"),
    ("Slack", @"xoxe.xoxp-1-[0-9a-zA-Z]{166}"),
    ("Slack", @"xoxe-1-[0-9a-zA-Z]{147}"),
    ("Slack", @"T[a-zA-Z0-9_]{8}/B[a-zA-Z0-9_]{8}/[a-zA-Z0-9_]{24}"),
    ("Amazon Web Services", @"A[KS]IA[0-9A-Z]{16}"),
    ("Amazon Web Services", @"[0-9a-zA-Z/+]{40}"),
    ("Google Cloud Platform", @"[0-9a-fA-F]{8}-[0-9a-fA-F]{4}-[0-9a-fA-F]{12}"),
    ("Google Cloud Platform", @"[A-Za-z0-9_]{21}--[A-Za-z0-9_]{8}"),
    ("Heroku", @"[0-9a-fA-F]{8}-[0-9a-fA-F]{4}-[0-9a-fA-F]{4}-[0-9a-fA-F]{4}-[0-9a-fA-F]{12}"),
    ("Heroku", @"[0-9a-fA-F]{8}-[0-9a-fA-F]{4}-[0-9a-fA-F]{12}")
  ]
}
