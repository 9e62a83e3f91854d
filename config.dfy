/** The settings the relay reads from its environment. Every one is optional
    and, as in `if (process.env.X)`, counts as set only when it is a non-empty
    string. The feed and webhook URLs and the polling interval are not here:
    they only steer I/O, which this model leaves out. */
module Config {
  import opened Js

  datatype Settings = Settings(
    footerText: Option<string>,   // FOOTER_TEXT
    username: Option<string>,     // USERNAME
    avatar: Option<string>,       // AVATAR
    content: Option<string>,      // CONTENT
    footerIcon: Option<string>,   // FOOTER_ICON
    color: Option<string>,        // COLOR
    prepend: Option<string>,      // PREPEND
    trimRegex: Option<string>     // TRIM_REGEX
  )
}
